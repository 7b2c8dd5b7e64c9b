/**
  Recognising the one action an SSH bootstrap command asks for, and its nonce.
 */
module Bootstrap {
  import opened Common
  import opened NonceScan

  const PROXY_MARKER := "exec codex app-server proxy"
  const PATH_PROBE_MARKER := "if command -v codex >/dev/null 2>&1; then exit 0; fi"
  const VERSION_PROBE_MARKER := "codex --version"
  const BOOTSTRAP_MARKER := "CODEX_SSH_SKIP_APP_SERVER_BOOT"
  const PATH_PROBE_TAIL := "; exit 86"
  const MAX_COMMAND_BYTES: nat := 65536

  datatype Action = CodexPathProbe | CodexVersionProbe | AppServerBootstrap | AppServerProxy

  datatype Request = Request(nonce: seq<int>, action: Action)

  datatype Refusal = BadLength | ControlByte | NoNoncePrinter | NotOneAction | NotOneNonce

  // ------------------------------------------------------------------------------ searching

  predicate OccursAt(s: string, m: string, k: nat) {
    k + |m| <= |s| && s[k..k + |m|] == m
  }

  ghost predicate Occurs(s: string, m: string) {
    exists k: nat :: OccursAt(s, m, k)
  }

  /** The first occurrence at or after `from`. */
  function Find(s: string, m: string, from: nat): (found: Option<int>)
    ensures found.Some? ==> from <= found.value && OccursAt(s, m, found.value)
    ensures found.Some? ==> forall k: nat | from <= k < found.value :: !OccursAt(s, m, k)
    ensures found.None? ==> forall k: nat | from <= k :: !OccursAt(s, m, k)
    decreases |s| - from
  {
    if OccursAt(s, m, from) then Some(from)
    else if from < |s| then Find(s, m, from + 1)
    else None
  }

  /** How many occurrences there are when each search goes on behind the last one. */
  function Matches(s: string, m: string, from: nat): nat
    requires m != []
    decreases |s| - from
  {
    var found := Find(s, m, from);
    if found.None? then 0 else 1 + Matches(s, m, found.value + |m|)
  }

  // ----------------------------------------------------------------------- terminal markers

  /** ASCII white space and quotes, which may close a command. */
  predicate Soft(c: char) {
    c in " \t\n\r'\"" || c == 12 as char
  }

  /** Nothing but soft characters from `from` on. */
  predicate SoftFrom(s: string, from: nat) {
    forall i | from <= i < |s| :: Soft(s[i])
  }

  function TrimLeft(s: string): string {
    if s != [] && Soft(s[0]) then TrimLeft(s[1..]) else s
  }

  function TrimRight(s: string): string {
    if s != [] && Soft(s[|s| - 1]) then TrimRight(s[..|s| - 1]) else s
  }

  function Trim(s: string): string {
    TrimRight(TrimLeft(s))
  }

  function After(s: string, m: string): nat
    requires Find(s, m, 0).Some?
  {
    Find(s, m, 0).value + |m|
  }

  predicate HasTerminalMarker(command: string, marker: string)
    requires marker != []
  {
    Matches(command, marker, 0) == 1 && SoftFrom(command, After(command, marker))
  }

  predicate HasPathProbeMarker(command: string) {
    if HasTerminalMarker(command, PATH_PROBE_MARKER) then true
    else if Matches(command, PATH_PROBE_MARKER, 0) != 1 then false
    else Trim(command[After(command, PATH_PROBE_MARKER)..]) == PATH_PROBE_TAIL
  }

  // --------------------------------------------------------------- what a terminal marker is

  /** `m` occurs at k and nowhere else, overlapping occurrences included. */
  ghost predicate Sole(s: string, m: string, k: nat) {
    OccursAt(s, m, k) && forall j: nat | OccursAt(s, m, j) :: j == k
  }

  lemma OccurrenceChar(s: string, m: string, k: nat, i: nat)
    requires OccursAt(s, m, k) && i < |m|
    ensures s[k + i] == m[i]
  {
    assert s[k..k + |m|][i] == s[k + i];
  }

  lemma SoleIsOneMatch(s: string, m: string, k: nat)
    requires m != [] && Sole(s, m, k)
    ensures Find(s, m, 0) == Some(k) && Matches(s, m, 0) == 1
  {
  }

  /** Counting matches without overlap is enough: a terminal marker is the only occurrence there is. */
  lemma TerminalMarkerIsSole(s: string, m: string)
    requires m != [] && !Soft(m[|m| - 1])
    ensures HasTerminalMarker(s, m) <==> exists k: nat :: Sole(s, m, k) && SoftFrom(s, k + |m|)
  {
    if HasTerminalMarker(s, m) {
      var k := Find(s, m, 0).value;
      forall j: nat | OccursAt(s, m, j)
        ensures j == k
      {
        OccurrenceChar(s, m, j, |m| - 1);
      }
      assert Sole(s, m, k);
    }
    if k: nat :| Sole(s, m, k) && SoftFrom(s, k + |m|) {
      SoleIsOneMatch(s, m, k);
    }
  }

  // ---------------------------------------------------------------------------- trimmed tails

  /** What trimming leaves stands between soft characters and is itself solid at both ends. */
  ghost predicate Framed(s: string, from: nat, core: string) {
    && from + |core| <= |s| && s[from..from + |core|] == core
    && (forall i | 0 <= i < from :: Soft(s[i]))
    && SoftFrom(s, from + |core|)
    && (core != [] ==> !Soft(core[0]) && !Soft(core[|core| - 1]))
  }

  lemma {:induction false} TrimRightIsFramed(s: string)
    requires s != [] ==> !Soft(s[0])
    ensures Framed(s, 0, TrimRight(s))
    decreases |s|
  {
    if s != [] && Soft(s[|s| - 1]) {
      TrimRightIsFramed(s[..|s| - 1]);
    }
  }

  lemma {:induction false} TrimIsFramed(s: string) returns (from: nat)
    ensures Framed(s, from, Trim(s))
    decreases |s|
  {
    if s != [] && Soft(s[0]) {
      from := TrimIsFramed(s[1..]);
      from := from + 1;
    } else {
      from := 0;
      TrimRightIsFramed(s);
    }
  }

  // ----------------------------------------------------------------- markers exclude each other

  /** c is the last character that is not soft. */
  ghost predicate LastSolid(s: string, c: char) {
    exists i: nat :: i < |s| && s[i] == c && !Soft(c) && SoftFrom(s, i + 1)
  }

  lemma LastSolidIsUnique(s: string, c: char, d: char)
    requires LastSolid(s, c) && LastSolid(s, d)
    ensures c == d
  {
  }

  lemma TerminalMarkerEnds(s: string, m: string)
    requires m != [] && !Soft(m[|m| - 1]) && HasTerminalMarker(s, m)
    ensures LastSolid(s, m[|m| - 1])
  {
    OccurrenceChar(s, m, Find(s, m, 0).value, |m| - 1);
    assert s[After(s, m) - 1] == m[|m| - 1];
  }

  lemma PathTailEnds(s: string, at: nat)
    requires at <= |s| && Trim(s[at..]) == PATH_PROBE_TAIL
    ensures LastSolid(s, '6')
  {
    var from := TrimIsFramed(s[at..]);
    var last := at + from + |PATH_PROBE_TAIL| - 1;
    assert s[at..][from..from + |PATH_PROBE_TAIL|][|PATH_PROBE_TAIL| - 1] == s[last];
    assert SoftFrom(s, last + 1) by {
      assert forall i | last < i < |s| :: s[i] == s[at..][i - at];
    }
  }

  lemma PathProbeEnds(s: string)
    requires HasPathProbeMarker(s)
    ensures LastSolid(s, 'i') || LastSolid(s, '6')
  {
    if HasTerminalMarker(s, PATH_PROBE_MARKER) {
      TerminalMarkerEnds(s, PATH_PROBE_MARKER);
    } else {
      PathTailEnds(s, After(s, PATH_PROBE_MARKER));
    }
  }

  /** No command ends in two of the three terminal markers. */
  lemma TerminalsExclude(s: string)
    ensures !(HasPathProbeMarker(s) && HasTerminalMarker(s, VERSION_PROBE_MARKER))
    ensures !(HasPathProbeMarker(s) && HasTerminalMarker(s, PROXY_MARKER))
    ensures !(HasTerminalMarker(s, VERSION_PROBE_MARKER) && HasTerminalMarker(s, PROXY_MARKER))
  {
    if HasPathProbeMarker(s) {
      PathProbeEnds(s);
    }
    if HasTerminalMarker(s, VERSION_PROBE_MARKER) {
      TerminalMarkerEnds(s, VERSION_PROBE_MARKER);
      assert LastSolid(s, 'n');
    }
    if HasTerminalMarker(s, PROXY_MARKER) {
      TerminalMarkerEnds(s, PROXY_MARKER);
      assert LastSolid(s, 'y');
    }
    forall c, d | LastSolid(s, c) && LastSolid(s, d)
      ensures c == d
    {
      LastSolidIsUnique(s, c, d);
    }
  }

  // ------------------------------------------------------- the path probe, with or without a tail

  /** Trimming leaves the path tail. */
  predicate HasPathTail(s: string, at: nat) {
    at <= |s| && Trim(s[at..]) == PATH_PROBE_TAIL
  }

  lemma PathTailIsSolidOnlyAs(s: string, at: nat, i: nat)
    requires HasPathTail(s, at) && at <= i < |s| && !Soft(s[i])
    ensures s[i] in PATH_PROBE_TAIL
  {
    var from := TrimIsFramed(s[at..]);
    assert s[i] == s[at..][i - at];
    assert from <= i - at < from + |PATH_PROBE_TAIL|;
    assert s[at..][from..from + |PATH_PROBE_TAIL|][i - at - from] == s[i];
  }

  lemma PathMarkerBeforeTail(s: string, k: nat, j: nat)
    requires OccursAt(s, PATH_PROBE_MARKER, k) && OccursAt(s, PATH_PROBE_MARKER, j)
    requires HasPathTail(s, k + |PATH_PROBE_MARKER|)
    ensures j <= k
  {
    var m := PATH_PROBE_MARKER;
    OccurrenceChar(s, m, k, 1);
    OccurrenceChar(s, m, j, 0);
    OccurrenceChar(s, m, j, |m| - 2);
    if k + 1 < j {
      PathTailIsSolidOnlyAs(s, k + |m|, j + |m| - 2);
    }
  }

  lemma PathProbeIsSole(s: string)
    ensures HasPathProbeMarker(s) <==>
            exists k: nat :: Sole(s, PATH_PROBE_MARKER, k) && ClosesPath(s, k + |PATH_PROBE_MARKER|)
  {
    TerminalMarkerIsSole(s, PATH_PROBE_MARKER);
    if HasPathProbeMarker(s) && !HasTerminalMarker(s, PATH_PROBE_MARKER) {
      var k := Find(s, PATH_PROBE_MARKER, 0).value;
      forall j: nat | OccursAt(s, PATH_PROBE_MARKER, j)
        ensures j == k
      {
        PathMarkerBeforeTail(s, k, j);
      }
      assert Sole(s, PATH_PROBE_MARKER, k);
    }
    if k: nat :| Sole(s, PATH_PROBE_MARKER, k) && ClosesPath(s, k + |PATH_PROBE_MARKER|) {
      SoleIsOneMatch(s, PATH_PROBE_MARKER, k);
    }
  }

  predicate ClosesPath(s: string, at: nat) {
    SoftFrom(s, at) || HasPathTail(s, at)
  }

  // ------------------------------------------------------------------------------ the request

  predicate Contains(s: string, m: string)
    ensures Contains(s, m) <==> Occurs(s, m)
  {
    Find(s, m, 0).Some?
  }

  predicate Asks(command: string, action: Action) {
    match action
    case CodexPathProbe => HasPathProbeMarker(command)
    case CodexVersionProbe => HasTerminalMarker(command, VERSION_PROBE_MARKER)
    case AppServerBootstrap => Matches(command, BOOTSTRAP_MARKER, 0) > 0
    case AppServerProxy => HasTerminalMarker(command, PROXY_MARKER)
  }

  ghost predicate AsksOnly(command: string, action: Action) {
    forall other :: Asks(command, other) <==> other == action
  }

  ghost predicate AsksOne(command: string) {
    exists action :: AsksOnly(command, action)
  }

  /** A command names one action exactly when it has a terminal marker or the bootstrap marker, and not both. */
  lemma OneActionIff(command: string)
    ensures AsksOne(command) <==>
            (|| HasPathProbeMarker(command)
             || HasTerminalMarker(command, VERSION_PROBE_MARKER)
             || HasTerminalMarker(command, PROXY_MARKER)) != Occurs(command, BOOTSTRAP_MARKER)
  {
    TerminalsExclude(command);
    BootstrapCounts(command);
    ExactlyOne(command, Asks(command, CodexPathProbe), Asks(command, CodexVersionProbe),
               Asks(command, AppServerBootstrap), Asks(command, AppServerProxy));
  }

  lemma BootstrapCounts(command: string)
    ensures Asks(command, AppServerBootstrap) <==> Occurs(command, BOOTSTRAP_MARKER)
  {
  }

  lemma ExactlyOne(command: string, path: bool, version: bool, bootstrap: bool, proxy: bool)
    requires path == Asks(command, CodexPathProbe) && version == Asks(command, CodexVersionProbe)
    requires bootstrap == Asks(command, AppServerBootstrap) && proxy == Asks(command, AppServerProxy)
    requires !(path && version) && !(path && proxy) && !(version && proxy)
    ensures AsksOne(command) <==> (path || version || proxy) != bootstrap
  {
    if (path || version || proxy) != bootstrap {
      var action := if path then CodexPathProbe else if version then CodexVersionProbe
                    else if proxy then AppServerProxy else AppServerBootstrap;
      assert AsksOnly(command, action);
    }
  }

  // ------------------------------------------------------------------- what a command must say

  /** The text m is spelled out at k. */
  predicate SpellsAt(s: string, m: string, k: nat) {
    k + |m| <= |s| && forall i | 0 <= i < |m| :: s[k + i] == m[i]
  }

  ghost predicate Spells(s: string, m: string) {
    exists k: nat :: SpellsAt(s, m, k)
  }

  /** It is spelled out there and nowhere else. */
  ghost predicate SpellsOnlyAt(s: string, m: string, k: nat) {
    SpellsAt(s, m, k) && forall j: nat | SpellsAt(s, m, j) :: j == k
  }

  /** Nothing but blanks, tabs, line ends, form feeds and quotes from here to there. */
  predicate Filler(s: string, from: nat, to: nat) {
    forall i | from <= i < to && i < |s| :: s[i] in {' ', '\t', '\n', '\r', '\'', '\"', 12 as char}
  }

  /** The action a command asks for, by the very text that asks for it. */
  ghost predicate SaysIn(s: string, action: Action) {
    match action
    case CodexPathProbe =>
      exists k: nat :: SpellsOnlyAt(s, "if command -v codex >/dev/null 2>&1; then exit 0; fi", k)
                       && EndsPathProbe(s, k + 52)
    case CodexVersionProbe => exists k: nat :: SpellsOnlyAt(s, "codex --version", k) && Filler(s, k + 15, |s|)
    case AppServerBootstrap => Spells(s, "CODEX_SSH_SKIP_APP_SERVER_BOOT")
    case AppServerProxy =>
      exists k: nat :: SpellsOnlyAt(s, "exec codex app-server proxy", k) && Filler(s, k + 27, |s|)
  }

  /** Behind the path probe comes filler, or "; exit 86" between filler. */
  ghost predicate EndsPathProbe(s: string, at: nat) {
    Filler(s, at, |s|) || exists j: nat :: ExitsAt(s, at, j)
  }

  predicate ExitsAt(s: string, at: nat, j: nat) {
    at <= j && Filler(s, at, j) && SpellsAt(s, "; exit 86", j) && Filler(s, j + 9, |s|)
  }

  lemma OccursIff(s: string, m: string, k: nat)
    ensures OccursAt(s, m, k) <==> SpellsAt(s, m, k)
  {
    if SpellsAt(s, m, k) {
      assert s[k..k + |m|] == m;
    }
  }

  lemma SoleIff(s: string, m: string, k: nat)
    ensures Sole(s, m, k) <==> SpellsOnlyAt(s, m, k)
  {
    forall j: nat
      ensures OccursAt(s, m, j) <==> SpellsAt(s, m, j)
    {
      OccursIff(s, m, j);
    }
  }

  lemma SoftIff(s: string, from: nat)
    ensures SoftFrom(s, from) <==> Filler(s, from, |s|)
  {
  }

  lemma TerminalIff(s: string, m: string)
    requires m != [] && !Soft(m[|m| - 1])
    ensures HasTerminalMarker(s, m) <==> exists k: nat :: SpellsOnlyAt(s, m, k) && Filler(s, k + |m|, |s|)
  {
    TerminalMarkerIsSole(s, m);
    forall k: nat
      ensures Sole(s, m, k) && SoftFrom(s, k + |m|) <==> SpellsOnlyAt(s, m, k) && Filler(s, k + |m|, |s|)
    {
      SoleIff(s, m, k);
      SoftIff(s, k + |m|);
    }
  }

  /** What is left when soft characters are trimmed is the tail, exactly if the tail stands between them. */
  lemma TailIff(s: string, at: nat)
    ensures HasPathTail(s, at) <==> exists j: nat :: ExitsAt(s, at, j)
  {
    if HasPathTail(s, at) {
      var from := TrimIsFramed(s[at..]);
      TailExits(s, at, from);
    }
    if j: nat :| ExitsAt(s, at, j) {
      ExitIsTail(s, at, j);
    }
  }

  lemma TailExits(s: string, at: nat, from: nat)
    requires at <= |s| && Framed(s[at..], from, "; exit 86")
    ensures ExitsAt(s, at, at + from)
  {
    var tail := s[at..];
    assert forall i: nat | i < |tail| :: s[at + i] == tail[i];
    OccursIff(tail, "; exit 86", from);
    assert SpellsAt(s, "; exit 86", at + from);
    assert Filler(s, at, at + from) by {
      assert forall i | at <= i < at + from :: s[i] == tail[i - at];
    }
    assert Filler(s, at + from + 9, |s|) by {
      assert forall i | at + from + 9 <= i < |s| :: s[i] == tail[i - at];
    }
  }

  lemma ExitIsTail(s: string, at: nat, j: nat)
    requires ExitsAt(s, at, j)
    ensures HasPathTail(s, at)
  {
    var tail := s[at..];
    assert tail == s[at..j] + "; exit 86" + s[j + 9..] by {
      OccursIff(s, "; exit 86", j);
    }
    TrimBetween(s[at..j], "; exit 86", s[j + 9..]);
  }

  lemma {:induction false} TrimRightOf(core: string, behind: string)
    requires core != [] && !Soft(core[|core| - 1]) && SoftFrom(behind, 0)
    ensures TrimRight(core + behind) == core
    decreases |behind|
  {
    if behind == [] {
      assert core + behind == core;
    } else {
      var s := core + behind;
      assert s[..|s| - 1] == core + behind[..|behind| - 1];
      TrimRightOf(core, behind[..|behind| - 1]);
    }
  }

  lemma {:induction false} TrimBetween(before: string, core: string, behind: string)
    requires core != [] && !Soft(core[0]) && !Soft(core[|core| - 1])
    requires SoftFrom(before, 0) && SoftFrom(behind, 0)
    ensures Trim(before + core + behind) == core
    decreases |before|
  {
    var s := before + core + behind;
    if before == [] {
      assert s == core + behind && s[0] == core[0];
      TrimRightOf(core, behind);
    } else {
      assert s[1..] == before[1..] + core + behind;
      TrimBetween(before[1..], core, behind);
    }
  }

  lemma PathProbeIff(s: string)
    ensures HasPathProbeMarker(s) <==>
            exists k: nat :: SpellsOnlyAt(s, PATH_PROBE_MARKER, k) && EndsPathProbe(s, k + |PATH_PROBE_MARKER|)
  {
    PathProbeIsSole(s);
    var m := PATH_PROBE_MARKER;
    forall k: nat
      ensures Sole(s, m, k) && ClosesPath(s, k + |m|) <==> SpellsOnlyAt(s, m, k) && EndsPathProbe(s, k + |m|)
    {
      SoleIff(s, PATH_PROBE_MARKER, k);
      SoftIff(s, k + |PATH_PROBE_MARKER|);
      TailIff(s, k + |PATH_PROBE_MARKER|);
    }
  }

  lemma ContainsIff(s: string, m: string)
    ensures Contains(s, m) <==> Spells(s, m)
  {
    forall k: nat {
      OccursIff(s, m, k);
    }
  }

  /** A command asks for an action exactly by its text. */
  lemma AsksIff(s: string, action: Action)
    ensures Asks(s, action) <==> SaysIn(s, action)
  {
    match action
    case CodexPathProbe => PathProbeIff(s);
    case CodexVersionProbe => TerminalIff(s, "codex --version");
    case AppServerBootstrap =>
      BootstrapCounts(s);
      ContainsIff(s, "CODEX_SSH_SKIP_APP_SERVER_BOOT");
    case AppServerProxy => TerminalIff(s, "exec codex app-server proxy");
  }

  predicate Forbidden(c: char) {
    c == 0 as char || c == '\n' || c == '\r'
  }

  predicate LengthIsValid(command: string) {
    0 < |command| <= MAX_COMMAND_BYTES
  }

  predicate HasControlByte(command: string) {
    exists i :: 0 <= i < |command| && Forbidden(command[i])
  }

  predicate HasNoncePrinter(command: string) {
    Contains(command, "printf") && Contains(command, "%b")
  }

  method CollectActions(command: string) returns (actions: seq<Action>)
    ensures forall action :: action in actions <==> Asks(command, action)
    ensures |actions| == 1 <==> AsksOne(command)
    ensures |actions| == 1 ==> AsksOnly(command, actions[0])
  {
    actions := [];
    var path, version := Asks(command, CodexPathProbe), Asks(command, CodexVersionProbe);
    var bootstrap, proxy := Asks(command, AppServerBootstrap), Asks(command, AppServerProxy);
    if path {
      actions := actions + [CodexPathProbe];
    }
    if version {
      actions := actions + [CodexVersionProbe];
    }
    if bootstrap {
      actions := actions + [AppServerBootstrap];
    }
    if proxy {
      actions := actions + [AppServerProxy];
    }
    TerminalsExclude(command);
    ExactlyOne(command, path, version, bootstrap, proxy);
  }

  predicate WellSized(command: string) {
    0 < |command| <= 65536
  }

  predicate Clean(command: string) {
    forall i | 0 <= i < |command| :: command[i] !in {'\n', '\r', 0 as char}
  }

  ghost predicate PrintsNonce(command: string) {
    Spells(command, "printf") && Spells(command, "%b")
  }

  ghost predicate SaysOnly(command: string, action: Action) {
    forall other :: SaysIn(command, other) <==> other == action
  }

  ghost predicate SaysOne(command: string) {
    exists action :: SaysOnly(command, action)
  }

  lemma SaysOneIff(command: string)
    ensures AsksOne(command) <==> SaysOne(command)
    ensures forall action :: AsksOnly(command, action) <==> SaysOnly(command, action)
  {
    forall action
      ensures Asks(command, action) <==> SaysIn(command, action)
    {
      AsksIff(command, action);
    }
    forall action
      ensures AsksOnly(command, action) <==> SaysOnly(command, action)
    {
    }
  }

  lemma PlausibleIff(command: string)
    ensures LengthIsValid(command) <==> WellSized(command)
    ensures HasControlByte(command) <==> !Clean(command)
    ensures HasNoncePrinter(command) <==> PrintsNonce(command)
  {
    ContainsIff(command, "printf");
    ContainsIff(command, "%b");
  }

  /**
    A request is accepted exactly when it is well sized and clean, prints a nonce,
    says one action and carries one nonce, which are the ones returned; each
    refusal names the first of these that fails.
   */
  method ParseOriginalCommand(command: string) returns (r: Result<Request, Refusal>)
    ensures r == Err(BadLength) <==> !WellSized(command)
    ensures r == Err(ControlByte) <==> WellSized(command) && !Clean(command)
    ensures r == Err(NoNoncePrinter) <==> WellSized(command) && Clean(command) && !PrintsNonce(command)
    ensures r == Err(NotOneAction) <==>
            WellSized(command) && Clean(command) && PrintsNonce(command) && !SaysOne(command)
    ensures r == Err(NotOneNonce) <==>
            && WellSized(command) && Clean(command) && PrintsNonce(command) && SaysOne(command)
            && !HasOneNonce(command)
    ensures r.Ok? ==> SaysOnly(command, r.value.action) && IsItsNonce(command, r.value.nonce)
  {
    PlausibleIff(command);
    SaysOneIff(command);
    if !LengthIsValid(command) {
      return Err(BadLength);
    }
    if HasControlByte(command) {
      return Err(ControlByte);
    }
    if !HasNoncePrinter(command) {
      return Err(NoNoncePrinter);
    }
    var actions := CollectActions(command);
    if |actions| != 1 {
      return Err(NotOneAction);
    }
    var candidates := OctalNonceCandidates(command);
    OneNonceIff(command);
    if |candidates| != 1 {
      return Err(NotOneNonce);
    }
    return Ok(Request(candidates[0], actions[0]));
  }
}
