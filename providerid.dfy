// Model of controllers/noderefutil/providerid.go: parsing a Kubernetes node
// ProviderID of the form <cloudProvider>://<optional>/<segments>/<id>.
module ProviderId {

  import opened Strings

  datatype ProviderIdError = EmptyProviderID | InvalidProviderID

  /** A parsed ProviderID; its fields are fixed once built. */
  datatype ProviderID = ProviderID(original: string, cloudProvider: string, id: string)
  {
    function CloudProvider(): string { cloudProvider }

    function ID(): string { id }

    function String(): string { original }

    function IndexKey(): string { String() }

    predicate Equals(o: ProviderID) { String() == o.String() }

    predicate Validate() { CloudProvider() != "" && ID() != "" }
  }

  datatype Parsed = Ok(value: ProviderID) | Err(error: ProviderIdError)

  const Azure := "azure"

  // ---------------------------------------------------------------------
  // The regular expression ^[^:]+://.*[^/]$ with Go's default flags: `.`
  // matches anything but a newline, a negated class also matches a newline,
  // and `$` is the end of the text.

  /** s splits at index i into [^:]+ (s[..i]), "://", .* and a final [^/]. */
  ghost predicate SplitsAt(s: string, i: nat)
  {
    1 <= i && i + 3 < |s| &&
    ':' !in s[..i] && s[i..i + 3] == "://" &&
    '\n' !in s[i + 3..|s| - 1] && s[|s| - 1] != '/'
  }

  /** The language of the regular expression. */
  ghost predicate MatchesRegex(s: string)
  {
    exists i: nat :: SplitsAt(s, i)
  }

  /** providerIDRegex.MatchString: the only place the provider part can end
      is the first ':', so the match is decided there. */
  predicate Match(s: string)
  {
    ':' in s &&
    var i := IndexOf(s, ':');
    1 <= i && i + 3 < |s| && s[i..i + 3] == "://" &&
    '\n' !in s[i + 3..|s| - 1] && s[|s| - 1] != '/'
  }

  lemma MatchIsRegex(s: string)
    ensures Match(s) <==> MatchesRegex(s)
  {
    if Match(s) {
      var i := IndexOf(s, ':');
      assert SplitsAt(s, i);
    }
    if MatchesRegex(s) {
      var i: nat :| SplitsAt(s, i);
      assert s[i] == ':';
    }
  }

  /** The ID for a provider: the whole input lower-cased for azure, the text
      after the last '/' otherwise. */
  function Instance(s: string, cloudProvider: string): string
  {
    if cloudProvider == Azure then ToLower(s)
    else s[LastIndexOf(s, '/') + 1..]
  }

  /** NewProviderID. */
  function NewProviderID(s: string): (r: Parsed)
    ensures r == Err(EmptyProviderID) <==> s == ""
    ensures r == Err(InvalidProviderID) <==> s != "" && !MatchesRegex(s)
    ensures r.Ok? ==> r.value.original == s && r.value.Validate()
    ensures r.Ok? ==> HasPrefix(s, r.value.cloudProvider + "://") && ':' !in r.value.cloudProvider
    ensures r.Ok? && r.value.cloudProvider == Azure ==> r.value.id == ToLower(s)
    ensures r.Ok? && r.value.cloudProvider != Azure ==>
      |r.value.id| < |s| && HasSuffix(s, r.value.id) && '/' !in r.value.id && s[|s| - |r.value.id| - 1] == '/'
  {
    MatchIsRegex(s);
    if s == "" then Err(EmptyProviderID)
    else if !Match(s) then Err(InvalidProviderID)
    else
      var colon := IndexOf(s, ':');
      var p := ProviderID(s, s[..colon], Instance(s, s[..colon]));
      MatchedParts(s);
      if !p.Validate() then Err(InvalidProviderID) else Ok(p)
  }

  /** What a match guarantees: the provider part before the first ':' has at
      least one character and is followed by "://", and the last '/' is
      before the last character. So the Validate check after a match never
      fails. */
  lemma MatchedParts(s: string)
    requires Match(s)
    ensures var colon := IndexOf(s, ':');
      colon >= 1 && HasPrefix(s, s[..colon] + "://") &&
      0 <= LastIndexOf(s, '/') < |s| - 1 &&
      ProviderID(s, s[..colon], Instance(s, s[..colon])).Validate()
    ensures var colon := IndexOf(s, ':'); var id := Instance(s, s[..colon]);
      s[..colon] != Azure ==>
        |id| < |s| && HasSuffix(s, id) && '/' !in id && s[|s| - |id| - 1] == '/'
  {
    var colon := IndexOf(s, ':');
    assert s[..colon + 3] == s[..colon] + "://";
    assert s[colon..colon + 3][1] == '/';
    assert s[|s| - 1] != '/';
  }

  /** Inputs the expression refuses: no "://", an empty provider, a final
      '/', and a newline after "://" that is not the last character. */
  lemma RejectedExamples(s: string)
    requires s in ["aws:/i-1", "://i-1", "aws://i-1/", "aws://i\n-1"]
    ensures NewProviderID(s) == Err(InvalidProviderID)
  {
    if s == "aws:/i-1" {
      assert IndexOf(s, ':') == 3 && s[3..6][2] != '/';
    } else if s == "://i-1" {
      assert IndexOf(s, ':') == 0;
    } else if s == "aws://i-1/" {
      assert s[|s| - 1] == '/';
    } else {
      assert IndexOf(s, ':') == 3 && s[6..|s| - 1][1] == '\n';
    }
  }

  /** The azure example inputs below match, with the provider "azure". */
  lemma AzureExampleMatches(s: string)
    requires s == "azure://A" || s == "azure://a"
    ensures IndexOf(s, ':') == 5 && Match(s) && s[..5] == Azure
  {
  }

  lemma AzureExampleLower(s: string)
    requires s == "azure://A" || s == "azure://a"
    ensures ToLower(s) == "azure://a"
  {
    hide ToLower;
    forall k | 0 <= k < |s|
      ensures ToLower(s)[k] == "azure://a"[k]
    {
    }
  }

  /** The azure example inputs parse; the ID is the lower-cased input. */
  lemma ParsesAzure(s: string)
    requires s == "azure://A" || s == "azure://a"
    ensures NewProviderID(s) == Ok(ProviderID(s, Azure, "azure://a"))
  {
    hide ToLower, IndexOf, Match;
    AzureExampleMatches(s);
    AzureExampleLower(s);
    MatchedParts(s);
  }

  /** Equals compares the inputs as given, so two azure IDs that differ only
      in case have the same ID but are not equal. */
  lemma EqualsIsCaseSensitive()
    ensures NewProviderID("azure://A").Ok? && NewProviderID("azure://a").Ok?
    ensures NewProviderID("azure://A").value.ID() == NewProviderID("azure://a").value.ID()
    ensures !NewProviderID("azure://A").value.Equals(NewProviderID("azure://a").value)
  {
    ParsesAzure("azure://A");
    ParsesAzure("azure://a");
  }

  /** Two parsed IDs are Equal exactly when their inputs are the same, and
      their index keys are their inputs. */
  lemma EqualsIffSameInput(a: string, b: string)
    requires NewProviderID(a).Ok? && NewProviderID(b).Ok?
    ensures NewProviderID(a).value.Equals(NewProviderID(b).value) <==> a == b
    ensures NewProviderID(a).value.IndexKey() == a
  {
  }
}
