// Model of bootstrap/kubeadm/internal/ignition/clc/clc.go: the template
// helpers, the data renderCLC prepares for the Container Linux Config
// template, and the rules by which transpiler reports become errors or
// warnings. The template text, the transpiler itself and the Ignition JSON
// are not modelled: what the transpiler reports for a config is a parameter.
module Clc {

  import opened Wrappers
  import opened Strings

  /** errors.Wrapf's message. */
  function Wrap(context: string, message: string): string
  {
    context + ": " + message
  }

  // ---------------------------------------------------------------------
  // Template helpers.

  function Dash(c: char): char
  {
    if c == '/' then '-' else c
  }

  /** MountpointName: every '/' becomes '-', then one leading '-' is dropped. */
  function MountpointName(name: string): string
  {
    TrimPrefix(ReplaceChar(name, '/', '-'), "-")
  }

  /** The mount point name has no '/'; it is the name with each '/' turned
      into '-', less its first character when that was '/' or '-'. */
  lemma MountpointNameSpec(name: string)
    ensures '/' !in MountpointName(name)
    ensures |name| > 0 && (name[0] == '/' || name[0] == '-') ==>
      |MountpointName(name)| == |name| - 1 &&
      forall k | 0 <= k < |name| - 1 :: MountpointName(name)[k] == Dash(name[k + 1])
    ensures !(|name| > 0 && (name[0] == '/' || name[0] == '-')) ==>
      |MountpointName(name)| == |name| &&
      forall k | 0 <= k < |name| :: MountpointName(name)[k] == Dash(name[k])
  {
    var dashed := ReplaceChar(name, '/', '-');
    var r := MountpointName(name);
    assert HasPrefix(dashed, "-") <==> |name| > 0 && (name[0] == '/' || name[0] == '-');
    if HasPrefix(dashed, "-") {
      assert dashed == "-" + r;
      assert forall k | 0 <= k < |r| :: r[k] == dashed[k + 1];
    }
  }

  lemma MountpointNameExample()
    ensures MountpointName("/var/lib/testdir") == "var-lib-testdir"
  {
    hide MountpointName, ReplaceChar, TrimPrefix;
    var r := MountpointName("/var/lib/testdir");
    MountpointNameSpec("/var/lib/testdir");
    assert |r| == 15;
    forall k | 0 <= k < 15
      ensures r[k] == "var-lib-testdir"[k]
    {
    }
  }

  /** The reference for TemplateYAMLIndent: pad inserted after every
      newline, everything else kept. */
  function Indented(s: string, pad: string): string
  {
    if |s| == 0 then ""
    else if s[0] == '\n' then "\n" + pad + Indented(s[1..], pad)
    else [s[0]] + Indented(s[1..], pad)
  }

  /** templateYAMLIndent: split at newlines and join with a newline and i
      spaces. */
  function TemplateYAMLIndent(i: nat, input: string): string
  {
    Join(Split(input, '\n'), "\n" + Spaces(i))
  }

  lemma {:induction false} IndentedConcat(a: string, b: string, pad: string)
    ensures Indented(a + b, pad) == Indented(a, pad) + Indented(b, pad)
    decreases |a|
  {
    if |a| > 0 {
      assert (a + b)[1..] == a[1..] + b;
      IndentedConcat(a[1..], b, pad);
    } else {
      assert a + b == b;
    }
  }

  lemma {:induction false} IndentedNoNewline(s: string, pad: string)
    requires '\n' !in s
    ensures Indented(s, pad) == s
    decreases |s|
  {
    if |s| > 0 {
      IndentedNoNewline(s[1..], pad);
    }
  }

  lemma SplitNone(s: string)
    requires '\n' !in s
    ensures Split(s, '\n') == [s]
  {
  }

  lemma SplitAtFirst(s: string, n: nat)
    requires '\n' in s && n == IndexOf(s, '\n')
    ensures Split(s, '\n') == [s[..n]] + Split(s[n + 1..], '\n')
  {
  }

  lemma IndentedNewline(rest: string, pad: string)
    ensures Indented("\n" + rest, pad) == "\n" + pad + Indented(rest, pad)
  {
    assert ("\n" + rest)[1..] == rest;
  }

  /** templateYAMLIndent inserts i spaces after every newline and changes
      nothing else. */
  lemma {:induction false} TemplateYAMLIndentInserts(i: nat, s: string)
    ensures TemplateYAMLIndent(i, s) == Indented(s, Spaces(i))
    decreases |s|
  {
    hide Split, Join, Indented;
    var pad := Spaces(i);
    if '\n' !in s {
      IndentedNoNewline(s, pad);
      SplitNone(s);
    } else {
      var n := IndexOf(s, '\n');
      var rest := s[n + 1..];
      TemplateYAMLIndentInserts(i, rest);
      SplitAtFirst(s, n);
      JoinCons(s[..n], Split(rest, '\n'), "\n" + pad);
      assert s == s[..n] + ("\n" + rest);
      IndentedConcat(s[..n], "\n" + rest, pad);
      IndentedNoNewline(s[..n], pad);
      IndentedNewline(rest, pad);
      assert TemplateYAMLIndent(i, s) == s[..n] + ("\n" + pad) + TemplateYAMLIndent(i, rest);
    }
  }

  /** Indenting by zero spaces is the identity. */
  lemma TemplateYAMLIndentZero(s: string)
    ensures TemplateYAMLIndent(0, s) == s
  {
    assert "\n" + Spaces(0) == ['\n'];
    JoinSplit(s, '\n');
  }

  // ---------------------------------------------------------------------
  // The data renderCLC hands to the template.

  /** The parts of cloud-init's user data the template data is built from. */
  datatype User = User(name: string, lockPassword: Option<bool>)

  datatype Filesystem = Filesystem(diskLabel: string, device: string)

  datatype DiskSetup = DiskSetup(filesystems: seq<Filesystem>)

  datatype BaseUserData = BaseUserData(users: seq<User>, diskSetup: Option<DiskSetup>)

  datatype RenderData = RenderData(
    base: BaseUserData,
    kubeadmConfig: string,
    usersWithPasswordAuth: string,
    filesystemDevicesByLabel: map<string, string>)

  const EmptyInputError := "empty base user data"

  predicate PasswordAuth(u: User)
  {
    u.lockPassword == Some(false)
  }

  /** The names of the users whose password is explicitly not locked, in
      input order. */
  function PasswordUsers(users: seq<User>): seq<string>
  {
    if |users| == 0 then []
    else
      PasswordUsers(users[..|users| - 1]) +
      (if PasswordAuth(users[|users| - 1]) then [users[|users| - 1].name] else [])
  }

  /** The label-to-device map; a later filesystem overrides an earlier one
      with the same label. */
  function DevicesByLabel(filesystems: seq<Filesystem>): map<string, string>
  {
    if |filesystems| == 0 then map[]
    else
      var last := filesystems[|filesystems| - 1];
      DevicesByLabel(filesystems[..|filesystems| - 1])[last.diskLabel := last.device]
  }

  function DiskDevices(disk: Option<DiskSetup>): map<string, string>
  {
    if disk.None? then map[] else DevicesByLabel(disk.value.filesystems)
  }

  /** renderCLC up to the template: a nil input is an error; otherwise the
      comma-joined password users and the label map. */
  method RenderCLC(input: Option<BaseUserData>, kubeadmConfig: string) returns (r: Result<RenderData>)
    ensures input.None? ==> r == Err(EmptyInputError)
    ensures input.Some? ==> r == Ok(RenderData(input.value, kubeadmConfig,
      Join(PasswordUsers(input.value.users), ","), DiskDevices(input.value.diskSetup)))
  {
    if input.None? {
      return Err(EmptyInputError);
    }
    var users := input.value.users;
    var names: seq<string> := [];
    var i := 0;
    while i < |users|
      invariant 0 <= i <= |users|
      invariant names == PasswordUsers(users[..i])
    {
      assert users[..i + 1][..i] == users[..i];
      if users[i].lockPassword.Some? && !users[i].lockPassword.value {
        names := names + [users[i].name];
      }
      i := i + 1;
    }
    assert users[..i] == users;
    var devices: map<string, string> := map[];
    if input.value.diskSetup.Some? {
      var filesystems := input.value.diskSetup.value.filesystems;
      var j := 0;
      while j < |filesystems|
        invariant 0 <= j <= |filesystems|
        invariant devices == DevicesByLabel(filesystems[..j])
      {
        assert filesystems[..j + 1][..j] == filesystems[..j];
        devices := devices[filesystems[j].diskLabel := filesystems[j].device];
        j := j + 1;
      }
      assert filesystems[..j] == filesystems;
    }
    return Ok(RenderData(input.value, kubeadmConfig, Join(names, ","), devices));
  }

  /** Exactly the users with an unlocked password are listed. */
  lemma {:induction false} PasswordUsersMembers(users: seq<User>, name: string)
    ensures name in PasswordUsers(users) <==> exists u | u in users :: PasswordAuth(u) && u.name == name
    decreases |users|
  {
    if |users| > 0 {
      var init := users[..|users| - 1];
      PasswordUsersMembers(init, name);
      assert users == init + [users[|users| - 1]];
      if exists u | u in users :: PasswordAuth(u) && u.name == name {
        var u :| u in users && PasswordAuth(u) && u.name == name;
        if u != users[|users| - 1] {
          assert u in init;
        }
      }
    }
  }

  /** The list keeps input order: the users of a concatenation are the
      users of each part, one after the other. */
  lemma {:induction false} PasswordUsersAppend(a: seq<User>, b: seq<User>)
    ensures PasswordUsers(a + b) == PasswordUsers(a) + PasswordUsers(b)
    decreases |b|
  {
    if |b| == 0 {
      assert a + b == a;
    } else {
      var ib := b[..|b| - 1];
      PasswordUsersAppend(a, ib);
      assert (a + b)[..|a + b| - 1] == a + ib;
      assert (a + b)[|a + b| - 1] == b[|b| - 1];
    }
  }

  lemma DevicesByLabelStep(filesystems: seq<Filesystem>)
    requires |filesystems| > 0
    ensures DevicesByLabel(filesystems) ==
      DevicesByLabel(filesystems[..|filesystems| - 1])[filesystems[|filesystems| - 1].diskLabel := filesystems[|filesystems| - 1].device]
  {
  }

  /** The map's keys are exactly the labels. */
  lemma {:induction false} DevicesByLabelKeys(filesystems: seq<Filesystem>, diskLabel: string)
    ensures diskLabel in DevicesByLabel(filesystems) <==>
      exists j | 0 <= j < |filesystems| :: filesystems[j].diskLabel == diskLabel
    decreases |filesystems|
  {
    if |filesystems| > 0 {
      hide DevicesByLabel;
      var n := |filesystems| - 1;
      var init := filesystems[..n];
      DevicesByLabelStep(filesystems);
      DevicesByLabelKeys(init, diskLabel);
      if exists j | 0 <= j < |filesystems| :: filesystems[j].diskLabel == diskLabel {
        var j :| 0 <= j < |filesystems| && filesystems[j].diskLabel == diskLabel;
        if j < n {
          assert init[j].diskLabel == diskLabel;
        }
      }
      if exists j | 0 <= j < n :: init[j].diskLabel == diskLabel {
        var j :| 0 <= j < n && init[j].diskLabel == diskLabel;
        assert filesystems[j].diskLabel == diskLabel;
      }
    }
  }

  /** filesystems[j] is the last filesystem with the label, and it has the
      device. */
  predicate LastWith(filesystems: seq<Filesystem>, diskLabel: string, device: string, j: int)
  {
    0 <= j < |filesystems| && filesystems[j].diskLabel == diskLabel && filesystems[j].device == device &&
    forall k | j < k < |filesystems| :: filesystems[k].diskLabel != diskLabel
  }

  /** Each label maps to the device of its last filesystem. */
  lemma {:induction false} DevicesByLabelLastWins(filesystems: seq<Filesystem>, diskLabel: string)
    requires diskLabel in DevicesByLabel(filesystems)
    ensures exists j :: LastWith(filesystems, diskLabel, DevicesByLabel(filesystems)[diskLabel], j)
    decreases |filesystems|
  {
    assert |filesystems| > 0;
    hide DevicesByLabel;
    var n := |filesystems| - 1;
    DevicesByLabelStep(filesystems);
    var init := filesystems[..n];
    var m := DevicesByLabel(init);
    assert DevicesByLabel(filesystems) == m[filesystems[n].diskLabel := filesystems[n].device];
    if filesystems[n].diskLabel != diskLabel {
      assert diskLabel in m;
      DevicesByLabelLastWins(init, diskLabel);
      var j :| LastWith(init, diskLabel, m[diskLabel], j);
      assert LastWith(filesystems, diskLabel, DevicesByLabel(filesystems)[diskLabel], j);
    } else {
      assert LastWith(filesystems, diskLabel, DevicesByLabel(filesystems)[diskLabel], n);
    }
  }

  /** Without a disk setup the map is empty. */
  lemma NoDiskNoDevices()
    ensures DiskDevices(None) == map[]
  {
  }

  // ---------------------------------------------------------------------
  // Transpiler reports.

  /** What the transpiler reports for one stage: its entries and whether
      one of them is fatal. */
  datatype Report = Report(entries: seq<string>, fatal: bool)

  /** The reports of clct.Parse and clct.Convert for one config. */
  datatype Transpiled = Transpiled(parse: Report, convert: Report)

  /** A stage fails on a fatal report, or in strict mode on any entry. */
  predicate Rejects(report: Report, strict: bool)
  {
    (|report.entries| > 0 && strict) || report.fatal
  }

  const ParseError := "error parsing Container Linux Config"
  const ConvertError := "error converting to Ignition"

  /** clcToIgnition: the parse stage, then the convert stage; on success the
      warnings are the two stages' entries merged. */
  function ClcToIgnition(t: Transpiled, strict: bool): Result<seq<string>>
  {
    if Rejects(t.parse, strict) then Err(ParseError)
    else if Rejects(t.convert, strict) then Err(ConvertError)
    else Ok(t.parse.entries + t.convert.entries)
  }

  /** clcToIgnition fails exactly when either stage reports something fatal
      or, in strict mode, anything at all; a strict success has no
      warnings, and a success keeps every entry of both stages. */
  lemma ClcToIgnitionRule(t: Transpiled, strict: bool)
    ensures ClcToIgnition(t, strict).Err? <==>
      t.parse.fatal || t.convert.fatal || (strict && (|t.parse.entries| > 0 || |t.convert.entries| > 0))
    ensures ClcToIgnition(t, strict).Ok? && strict ==> ClcToIgnition(t, strict).value == []
    ensures ClcToIgnition(t, strict).Ok? ==>
      forall e :: e in ClcToIgnition(t, strict).value <==> e in t.parse.entries || e in t.convert.entries
  {
  }

  /** The user's ContainerLinuxConfig. */
  datatype ContainerLinuxConfig = ContainerLinuxConfig(additionalConfig: string, strict: bool)

  /** buildIgnitionConfig, returning the warnings: the generated config is
      converted strictly, the additional config (when set) with the user's
      strictness. */
  function BuildIgnitionConfig(base: Transpiled, clc: ContainerLinuxConfig, additional: Transpiled): Result<seq<string>>
  {
    var generated := ClcToIgnition(base, true);
    if generated.Err? then Err(Wrap("converting generated CLC to Ignition", generated.message))
    else if clc.additionalConfig == "" then Ok([])
    else
      var extra := ClcToIgnition(additional, clc.strict);
      if extra.Err? then Err(Wrap("converting additional CLC to Ignition", extra.message))
      else Ok(extra.value)
  }

  /** The warnings come only from the additional config, and there are none
      when it is empty; a strict additional config with any report fails. */
  lemma WarningsFromAdditionalOnly(base: Transpiled, clc: ContainerLinuxConfig, additional: Transpiled)
    ensures BuildIgnitionConfig(base, clc, additional).Ok? && clc.additionalConfig == "" ==>
      BuildIgnitionConfig(base, clc, additional).value == []
    ensures BuildIgnitionConfig(base, clc, additional).Ok? && clc.additionalConfig != "" ==>
      BuildIgnitionConfig(base, clc, additional).value == additional.parse.entries + additional.convert.entries
    ensures BuildIgnitionConfig(base, clc, additional).Err? <==>
      Rejects(base.parse, true) || Rejects(base.convert, true) ||
      (clc.additionalConfig != "" && (Rejects(additional.parse, clc.strict) || Rejects(additional.convert, clc.strict)))
  {
  }

  datatype Rendered = Rendered(data: RenderData, warnings: seq<string>)

  const EmptyCLCError := "get empty CLC config"

  /** Render: a nil CLC config is refused before anything is rendered, then
      a nil input; otherwise the outcome of building the Ignition config,
      where base is what the transpiler reports for the rendered template. */
  method Render(input: Option<BaseUserData>, clc: Option<ContainerLinuxConfig>, kubeadmConfig: string,
                base: Transpiled, additional: Transpiled) returns (r: Result<Rendered>)
    ensures clc.None? ==> r == Err(EmptyCLCError)
    ensures clc.Some? && input.None? ==> r == Err(Wrap("rendering CLC configuration", EmptyInputError))
    ensures clc.Some? && input.Some? ==>
      var built := BuildIgnitionConfig(base, clc.value, additional);
      (built.Err? ==> r == Err(Wrap("building Ignition config", built.message))) &&
      (built.Ok? ==>
         r.Ok? && r.value.warnings == built.value &&
         r.value.data.usersWithPasswordAuth == Join(PasswordUsers(input.value.users), ",") &&
         r.value.data.filesystemDevicesByLabel == DiskDevices(input.value.diskSetup))
  {
    if clc.None? {
      return Err(EmptyCLCError);
    }
    var data := RenderCLC(input, kubeadmConfig);
    if data.Err? {
      return Err(Wrap("rendering CLC configuration", data.message));
    }
    var built := BuildIgnitionConfig(base, clc.value, additional);
    if built.Err? {
      return Err(Wrap("building Ignition config", built.message));
    }
    return Ok(Rendered(data.value, built.value));
  }
}
