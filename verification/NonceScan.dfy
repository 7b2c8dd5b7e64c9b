/**
  The octal nonce scanner of the SSH bootstrap: it walks over a command of unknown
  quoting depth and collects every maximal run of eight octal escapes written with
  the same number of backslashes. A command is its bytes, one `char` each.
 */
module NonceScan {
  import opened Common
  import opened Picks

  const NONCE_BYTES: nat := 8

  predicate IsOctal(c: char) {
    '0' <= c <= '7'
  }

  function Digit(c: char): int {
    c as int - '0' as int
  }

  predicate AllBackslashes(b: string, from: nat, to: nat)
    requires from <= to <= |b|
  {
    forall i | from <= i < to :: b[i] == '\\'
  }

  /** The octet written at `offset` with exactly n backslashes and three octal digits. */
  function OctalValue(b: string, offset: nat, n: nat): Option<int> {
    var start := offset + n;
    if |b| < start + 3 then None
    else if n == 0 || !AllBackslashes(b, offset, start) then None
    else if !IsOctal(b[start]) || !IsOctal(b[start + 1]) || !IsOctal(b[start + 2]) then None
    else
      var value := Digit(b[start]) * 64 + Digit(b[start + 1]) * 8 + Digit(b[start + 2]);
      if value < 256 then Some(value) else None
  }

  /** How many backslashes follow each other from `from` on. */
  function SlashRun(b: string, from: nat): (n: nat)
    requires from <= |b|
    ensures from + n <= |b| && AllBackslashes(b, from, from + n)
    ensures from + n < |b| ==> b[from + n] != '\\'
    decreases |b| - from
  {
    if from < |b| && b[from] == '\\' then 1 + SlashRun(b, from + 1) else 0
  }

  method CountSlashes(b: string, from: nat) returns (n: nat)
    requires from <= |b|
    ensures n == SlashRun(b, from)
  {
    n := 0;
    while from + n < |b| && b[from + n] == '\\'
      invariant from + n <= |b|
      invariant SlashRun(b, from) == n + SlashRun(b, from + n)
    {
      n := n + 1;
    }
  }

  // ------------------------------------------------------------------------- what is looked for

  predicate Token(b: string, i: nat, n: nat) {
    OctalValue(b, i, n).Some?
  }

  predicate Starts(b: string, i: nat) {
    0 < i <= |b| ==> b[i - 1] != '\\'
  }

  /** An escape with exactly n backslashes, no more of them before it. */
  predicate Proper(b: string, i: nat, n: nat) {
    Token(b, i, n) && Starts(b, i)
  }

  ghost predicate NothingBefore(b: string, i: nat, n: nat) {
    forall j: nat | j + n + 3 == i :: !Proper(b, j, n)
  }

  /** The offset reached from i after t escapes of n backslashes and three digits. */
  function Slot(i: nat, n: nat, t: nat): nat
    decreases t
  {
    if t == 0 then i else Slot(i + n + 3, n, t - 1)
  }

  /** The octets `vals` are escaped back to back from i on with n backslashes each, and no more of them. */
  ghost predicate Escapes(b: string, i: nat, n: nat, vals: seq<int>) {
    && (forall t: nat | t < |vals| :: OctalValue(b, Slot(i, n, t), n) == Some(vals[t]))
    && OctalValue(b, Slot(i, n, |vals|), n) == None
  }

  ghost predicate MaximalRun(b: string, i: nat, n: nat, vals: seq<int>) {
    Starts(b, i) && NothingBefore(b, i, n) && Escapes(b, i, n, vals)
  }

  function RunValues(b: string, i: nat, n: nat): seq<int>
    decreases |b| - i
  {
    if !Token(b, i, n) then [] else [OctalValue(b, i, n).value] + RunValues(b, i + n + 3, n)
  }

  function RunEnd(b: string, i: nat, n: nat): nat
    decreases |b| - i
  {
    if !Token(b, i, n) then i else RunEnd(b, i + n + 3, n)
  }

  /** A run begins at i. */
  ghost predicate Head(b: string, i: nat)
    requires i <= |b|
  {
    Proper(b, i, SlashRun(b, i)) && NothingBefore(b, i, SlashRun(b, i))
  }

  /** The runs of eight octets that begin before k, in order. */
  ghost function RunsBefore(b: string, k: nat): seq<seq<int>>
    requires k <= |b|
  {
    if k == 0 then []
    else
      RunsBefore(b, k - 1) +
      if Head(b, k - 1) then NonceIn(RunValues(b, k - 1, SlashRun(b, k - 1))) else []
  }

  function NonceIn(vals: seq<int>): seq<seq<int>> {
    if |vals| == NONCE_BYTES then [vals] else []
  }

  ghost function Nonces(b: string): seq<seq<int>> {
    RunsBefore(b, |b|)
  }

  // -------------------------------------------------------------------------- escapes are disjoint

  lemma TokenHasAllSlashes(b: string, i: nat, n: nat)
    requires Token(b, i, n)
    ensures i <= |b| && SlashRun(b, i) == n
  {
    SlashRunIs(b, i, n);
  }

  lemma {:induction false} SlashRunIs(b: string, i: nat, n: nat)
    requires i + n <= |b| && AllBackslashes(b, i, i + n) && (i + n < |b| ==> b[i + n] != '\\')
    ensures SlashRun(b, i) == n
    decreases n
  {
    if n > 0 {
      SlashRunIs(b, i + 1, n - 1);
    }
  }

  /** An escape that starts inside another one, or ends where it ends, is that one. */
  lemma ProperAreDisjoint(b: string, i: nat, n: nat, j: nat, m: nat)
    requires Proper(b, i, n) && Proper(b, j, m) && i <= j
    requires j < i + n + 3 || j + m == i + n
    ensures i == j && n == m
  {
    if i < j {
      assert false;
    } else {
      TokenHasAllSlashes(b, i, n);
      TokenHasAllSlashes(b, j, m);
    }
  }

  /**
    What holds wherever the scan looks for a new run: every escape begun earlier is over,
    none of them goes on here, and the middle of a row of backslashes starts nothing.
   */
  ghost predicate Ready(b: string, i: nat) {
    && i <= |b|
    && (forall j: nat, m: nat | j < i && Proper(b, j, m) :: j + m + 3 <= i && (j + m + 3 == i ==> !Token(b, i, m)))
    && (!Starts(b, i) ==> !Token(b, i, SlashRun(b, i)))
  }

  lemma ReadyIsHead(b: string, i: nat)
    requires Ready(b, i)
    ensures Head(b, i) <==> Token(b, i, SlashRun(b, i))
  {
  }

  lemma ReadyAfterNothing(b: string, i: nat)
    requires Ready(b, i) && i < |b| && !Token(b, i, SlashRun(b, i))
    ensures Ready(b, i + 1) && RunsBefore(b, i + 1) == RunsBefore(b, i)
  {
    forall j: nat, m: nat | j < i + 1 && Proper(b, j, m)
      ensures j + m + 3 <= i + 1 && (j + m + 3 == i + 1 ==> !Token(b, i + 1, m))
    {
      TokenHasAllSlashes(b, j, m);
      assert j < i;
    }
    if !Starts(b, i + 1) {
      assert SlashRun(b, i) == 1 + SlashRun(b, i + 1);
    }
  }

  /** Inside a run, after at least one of its escapes. */
  ghost predicate Within(b: string, i: nat, n: nat) {
    && i <= |b|
    && n + 3 <= i && Proper(b, i - n - 3, n)
    && (forall j: nat, m: nat | j < i && Proper(b, j, m) :: j + m + 3 <= i)
  }

  lemma WithinIsNoHead(b: string, i: nat, n: nat)
    requires Within(b, i, n) && Token(b, i, n)
    ensures !Head(b, i)
  {
    TokenHasAllSlashes(b, i, n);
  }

  ghost function RunsUpTo(b: string): nat -> seq<seq<int>> {
    (k: nat) => if k <= |b| then RunsBefore(b, k) else []
  }

  lemma RunsStay(b: string, lo: nat, hi: nat)
    requires lo <= hi <= |b| && forall j: nat | lo <= j < hi :: Stays(RunsUpTo(b), j)
    ensures RunsBefore(b, hi) == RunsBefore(b, lo)
  {
    Steady(RunsUpTo(b), lo, hi);
  }

  lemma NothingBeginsInside(b: string, i: nat, n: nat, j: nat)
    requires Proper(b, i, n) && i < j < i + n + 3
    ensures j < |b| && RunsBefore(b, j + 1) == RunsBefore(b, j)
  {
    if Token(b, j, SlashRun(b, j)) && Starts(b, j) {
      ProperAreDisjoint(b, i, n, j, SlashRun(b, j));
    }
  }

  lemma NoHeadInside(b: string, i: nat, n: nat)
    requires Proper(b, i, n)
    ensures i + n + 3 <= |b| && forall j: nat | i < j < i + n + 3 :: Stays(RunsUpTo(b), j)
  {
    forall j: nat | i < j < i + n + 3
      ensures Stays(RunsUpTo(b), j)
    {
      NothingBeginsInside(b, i, n, j);
    }
  }

  lemma WithinAfterToken(b: string, i: nat, n: nat)
    requires Proper(b, i, n)
    requires forall j: nat, m: nat | j < i && Proper(b, j, m) :: j + m + 3 <= i
    ensures Within(b, i + n + 3, n) && RunsBefore(b, i + n + 3) == RunsBefore(b, i + 1)
  {
    NoHeadInside(b, i, n);
    RunsStay(b, i + 1, i + n + 3);
    forall j: nat, m: nat | j < i + n + 3 && Proper(b, j, m)
      ensures j + m + 3 <= i + n + 3
    {
      if i <= j {
        ProperAreDisjoint(b, i, n, j, m);
      }
    }
  }

  lemma ReadyAfterRun(b: string, i: nat, n: nat)
    requires Within(b, i, n) && !Token(b, i, n)
    ensures Ready(b, i)
  {
    forall j: nat, m: nat | j < i && Proper(b, j, m) && j + m + 3 == i
      ensures !Token(b, i, m)
    {
      if j <= i - n - 3 {
        ProperAreDisjoint(b, j, m, i - n - 3, n);
      } else {
        ProperAreDisjoint(b, i - n - 3, n, j, m);
      }
    }
    assert IsOctal(b[i - 1]);
  }

  // ---------------------------------------------------------------------------------- the scan

  /** Where the inner loop stands in the run that begins at `start`. */
  ghost predicate Scanning(b: string, start: nat, i: nat, n: nat, values: seq<int>) {
    && start <= i <= |b|
    && n == SlashRun(b, start) && Head(b, start)
    && values + RunValues(b, i, n) == RunValues(b, start, n)
    && if i == start then Ready(b, i)
       else Within(b, i, n) && RunsBefore(b, i) == RunsBefore(b, start + 1)
  }

  lemma HeadCounts(b: string, i: nat, n: nat)
    requires i <= |b| && Head(b, i) && n == SlashRun(b, i)
    ensures i < |b| && RunsBefore(b, i + 1) == RunsBefore(b, i) + NonceIn(RunValues(b, i, n))
  {
  }

  lemma ValuesMove(b: string, i: nat, n: nat, values: seq<int>)
    requires Token(b, i, n)
    ensures values + [OctalValue(b, i, n).value] + RunValues(b, i + n + 3, n) == values + RunValues(b, i, n)
  {
  }

  lemma ScanStep(b: string, start: nat, i: nat, n: nat, values: seq<int>)
    requires Scanning(b, start, i, n, values) && Token(b, i, n)
    ensures Scanning(b, start, i + n + 3, n, values + [OctalValue(b, i, n).value])
  {
    if start < i {
      WithinIsNoHead(b, i, n);
    }
    WithinAfterToken(b, i, n);
    ValuesMove(b, i, n, values);
  }

  lemma ScanDone(b: string, start: nat, i: nat, n: nat, values: seq<int>)
    requires Scanning(b, start, i, n, values) && !Token(b, i, n)
    ensures start < i && Ready(b, i)
    ensures RunsBefore(b, i) == RunsBefore(b, start) + NonceIn(values)
  {
    if i == start {
      assert false;
    } else {
      HeadCounts(b, start, n);
      assert values + [] == values;
      ReadyAfterRun(b, i, n);
    }
  }

  method OctalNonceCandidates(b: string) returns (found: seq<seq<int>>)
    ensures found == Nonces(b)
  {
    found := [];
    var i := 0;
    while i < |b|
      invariant Ready(b, i)
      invariant found == RunsBefore(b, i)
    {
      var slashes := CountSlashes(b, i);
      if slashes == 0 || OctalValue(b, i, slashes).None? {
        ReadyAfterNothing(b, i);
        i := i + 1;
      } else {
        ReadyIsHead(b, i);
        var values;
        i, values := ScanRun(b, i, slashes);
        if |values| == NONCE_BYTES {
          found := found + [values];
        }
      }
    }
  }

  method ScanRun(b: string, start: nat, n: nat) returns (i: nat, values: seq<int>)
    requires Ready(b, start) && Head(b, start) && n == SlashRun(b, start)
    ensures start < i && Ready(b, i)
    ensures values == RunValues(b, start, n)
    ensures RunsBefore(b, i) == RunsBefore(b, start) + NonceIn(values)
  {
    i, values := start, [];
    while Token(b, i, n)
      invariant Scanning(b, start, i, n, values)
      decreases |b| - i
    {
      ScanStep(b, start, i, n, values);
      values := values + [OctalValue(b, i, n).value];
      i := i + n + 3;
    }
    ScanDone(b, start, i, n, values);
  }

  // --------------------------------------------------------------------- what the scan means

  lemma {:induction false} EscapesAreRead(b: string, i: nat, n: nat)
    ensures Escapes(b, i, n, RunValues(b, i, n))
    decreases |b| - i
  {
    if Token(b, i, n) {
      var vals, rest := RunValues(b, i, n), RunValues(b, i + n + 3, n);
      EscapesAreRead(b, i + n + 3, n);
      forall t: nat | t < |vals|
        ensures OctalValue(b, Slot(i, n, t), n) == Some(vals[t])
      {
        assert t > 0 ==> vals[t] == rest[t - 1];
      }
    }
  }

  /** The octets of a run are determined by where it starts. */
  lemma {:induction false} EscapesAreUnique(b: string, i: nat, n: nat, vals: seq<int>)
    requires Escapes(b, i, n, vals)
    ensures RunValues(b, i, n) == vals
    decreases |vals|
  {
    if vals != [] {
      assert OctalValue(b, Slot(i, n, 0), n) == Some(vals[0]);
      RestEscapes(b, i, n, vals);
      EscapesAreUnique(b, i + n + 3, n, vals[1..]);
    }
  }

  lemma RestEscapes(b: string, i: nat, n: nat, vals: seq<int>)
    requires Escapes(b, i, n, vals) && vals != []
    ensures Escapes(b, i + n + 3, n, vals[1..])
  {
    forall t: nat | t < |vals[1..]|
      ensures OctalValue(b, Slot(i + n + 3, n, t), n) == Some(vals[1..][t])
    {
      assert Slot(i, n, t + 1) == Slot(i + n + 3, n, t);
    }
  }

  // ------------------------------------------------------------------------------- round trip

  predicate Octets(vals: seq<int>) {
    forall i | 0 <= i < |vals| :: 0 <= vals[i] < 256
  }

  function OctalDigit(d: int): char
    requires 0 <= d < 8
  {
    ('0' as int + d) as char
  }

  /** How a shell prints one octet at quoting depth n. */
  function Escape(v: int, n: nat): string
    requires 0 <= v < 256
  {
    seq(n, _ => '\\') + [OctalDigit(v / 64), OctalDigit(v / 8 % 8), OctalDigit(v % 8)]
  }

  function Rendered(vals: seq<int>, n: nat): string
    requires Octets(vals)
  {
    if vals == [] then "" else Escape(vals[0], n) + Rendered(vals[1..], n)
  }

  lemma EscapeIsRead(pre: string, v: int, n: nat, suf: string)
    requires 0 <= v < 256 && n > 0
    ensures OctalValue(pre + Escape(v, n) + suf, |pre|, n) == Some(v)
  {
    var b, start := pre + Escape(v, n) + suf, |pre| + n;
    forall i | |pre| <= i < start
      ensures b[i] == '\\'
    {
      assert b[i] == Escape(v, n)[i - |pre|];
    }
    assert b[start] == Escape(v, n)[n];
    assert b[start + 1] == Escape(v, n)[n + 1];
    assert b[start + 2] == Escape(v, n)[n + 2];
  }

  lemma {:induction false} RenderedIsRead(pre: string, vals: seq<int>, n: nat, suf: string)
    requires Octets(vals) && n > 0 && '\\' !in suf
    ensures var b := pre + Rendered(vals, n) + suf;
            && RunValues(b, |pre|, n) == vals
            && RunEnd(b, |pre|, n) == |pre| + |Rendered(vals, n)|
    decreases |vals|
  {
    var b := pre + Rendered(vals, n) + suf;
    if vals == [] {
      assert b == pre + suf;
      assert |b| > |pre| ==> b[|pre|] == suf[0];
    } else {
      var first, rest := Escape(vals[0], n), Rendered(vals[1..], n);
      assert b == (pre + first) + rest + suf;
      assert b == pre + first + (rest + suf);
      EscapeIsRead(pre, vals[0], n, rest + suf);
      RenderedIsRead(pre + first, vals[1..], n, suf);
    }
  }

  lemma {:induction false} NoSlashesNoRuns(b: string, i: nat, k: nat)
    requires i <= k <= |b| && Plain(b, i, k)
    ensures RunsBefore(b, k) == RunsBefore(b, i)
    decreases k
  {
    if i < k {
      NoSlashesNoRuns(b, i, k - 1);
      assert b[k - 1] != '\\' && SlashRun(b, k - 1) == 0;
    }
  }

  lemma {:induction false} RestOfRunIsNoHead(b: string, i: nat, n: nat)
    requires Within(b, i, n)
    ensures RunEnd(b, i, n) <= |b| && RunsBefore(b, RunEnd(b, i, n)) == RunsBefore(b, i)
    decreases |b| - i
  {
    if Token(b, i, n) {
      WithinIsNoHead(b, i, n);
      WithinAfterToken(b, i, n);
      RestOfRunIsNoHead(b, i + n + 3, n);
    }
  }

  lemma PlainIsReady(b: string, i: nat)
    requires i <= |b| && Plain(b, 0, i)
    ensures Ready(b, i)
  {
    forall j: nat, m: nat | j < i
      ensures !Token(b, j, m)
    {
      assert b[j] != '\\';
    }
  }

  /** A run at the first backslash of the text is read whole, and then the scan stands behind it. */
  lemma {:induction false} OnlyRun(b: string, i: nat, n: nat)
    requires i <= |b| && Token(b, i, n) && Plain(b, 0, i)
    ensures RunEnd(b, i, n) <= |b| && RunsBefore(b, RunEnd(b, i, n)) == NonceIn(RunValues(b, i, n))
  {
    FirstOfRun(b, i, n);
    RestOfRunIsNoHead(b, i + n + 3, n);
  }

  lemma {:induction false} FirstOfRun(b: string, i: nat, n: nat)
    requires i <= |b| && Token(b, i, n) && Plain(b, 0, i)
    ensures Within(b, i + n + 3, n) && RunsBefore(b, i + n + 3) == NonceIn(RunValues(b, i, n))
  {
    TokenHasAllSlashes(b, i, n);
    PlainIsReady(b, i);
    WithinAfterToken(b, i, n);
    FirstRunCounts(b, i, n);
  }

  lemma {:induction false} FirstRunCounts(b: string, i: nat, n: nat)
    requires i <= |b| && Plain(b, 0, i) && Head(b, i) && n == SlashRun(b, i)
    ensures i < |b| && RunsBefore(b, i + 1) == NonceIn(RunValues(b, i, n))
  {
    NoSlashesNoRuns(b, 0, i);
    HeadCounts(b, i, n);
    assert [] + NonceIn(RunValues(b, i, n)) == NonceIn(RunValues(b, i, n));
  }

  /**
    Eight octets escaped at any quoting depth between texts without backslashes are found, and
    nothing else is; any other number of octets is no nonce.
   */
  lemma RenderedNonceIsFound(pre: string, vals: seq<int>, n: nat, suf: string)
    requires Octets(vals) && n > 0 && '\\' !in pre && '\\' !in suf
    ensures Nonces(pre + Rendered(vals, n) + suf) == if |vals| == 8 then [vals] else []
  {
    var b, end := pre + Rendered(vals, n) + suf, |pre| + |Rendered(vals, n)|;
    RenderedIsRead(pre, vals, n, suf);
    Around(pre, Rendered(vals, n), suf);
    OnlyRunInText(b, |pre|, n, end);
  }

  /** No backslash in [from, to). */
  predicate Plain(b: string, from: nat, to: nat)
    requires from <= to <= |b|
  {
    forall j | from <= j < to :: b[j] != '\\'
  }

  lemma Around(pre: string, mid: string, suf: string)
    requires '\\' !in pre && '\\' !in suf
    ensures var b := pre + mid + suf; Plain(b, 0, |pre|) && Plain(b, |pre| + |mid|, |b|)
  {
    var b := pre + mid + suf;
    assert forall j | 0 <= j < |pre| :: b[j] == pre[j];
    assert forall j | |pre| + |mid| <= j < |b| :: b[j] == suf[j - |pre| - |mid|];
  }

  lemma OnlyRunInText(b: string, i: nat, n: nat, end: nat)
    requires i <= end <= |b| && RunEnd(b, i, n) == end
    requires Plain(b, 0, i) && Plain(b, end, |b|)
    ensures Nonces(b) == NonceIn(RunValues(b, i, n))
  {
    NoSlashesNoRuns(b, end, |b|);
    if Token(b, i, n) {
      OnlyRun(b, i, n);
    } else {
      NoSlashesNoRuns(b, 0, i);
    }
  }

  // ------------------------------------------------------------ the nonces, escape by escape

  /** The octet v stands at i, escaped with n backslashes. */
  predicate EscapedAt(b: string, i: nat, n: nat, v: int) {
    && 0 <= v < 256 && n > 0 && i + n + 3 <= |b|
    && (forall j | i <= j < i + n :: b[j] == '\\')
    && b[i + n] == OctalDigit(v / 64) && b[i + n + 1] == OctalDigit(v / 8 % 8) && b[i + n + 2] == OctalDigit(v % 8)
  }

  lemma OctalIff(b: string, i: nat, n: nat, v: int)
    ensures OctalValue(b, i, n) == Some(v) <==> EscapedAt(b, i, n, v)
  {
    if i + n + 3 <= |b| && IsOctal(b[i + n]) && IsOctal(b[i + n + 1]) && IsOctal(b[i + n + 2]) {
      DigitsIff(b[i + n], b[i + n + 1], b[i + n + 2], v);
    }
  }

  lemma DigitsIff(c: char, d: char, e: char, v: int)
    requires IsOctal(c) && IsOctal(d) && IsOctal(e)
    ensures Digit(c) * 64 + Digit(d) * 8 + Digit(e) == v && v < 256 <==>
            0 <= v < 256 && c == OctalDigit(v / 64) && d == OctalDigit(v / 8 % 8) && e == OctalDigit(v % 8)
  {
    OctalDigits(Digit(c), Digit(d), Digit(e), v);
    if 0 <= v < 256 {
      DigitIff(c, v / 64);
      DigitIff(d, v / 8 % 8);
      DigitIff(e, v % 8);
    }
  }

  lemma OctalDigits(c: int, d: int, e: int, v: int)
    requires 0 <= c < 8 && 0 <= d < 8 && 0 <= e < 8
    ensures c * 64 + d * 8 + e == v <==> c == v / 64 && d == v / 8 % 8 && e == v % 8
  {
  }

  lemma DigitIff(c: char, v: int)
    requires IsOctal(c) && 0 <= v < 8
    ensures c == OctalDigit(v) <==> Digit(c) == v
  {
  }

  /**
    From i on these octets are escaped back to back with n backslashes each; no
    escape of that kind stands before or behind them, and no backslash before.
   */
  ghost predicate RunAt(b: string, i: nat, n: nat, vals: seq<int>) {
    && (forall t: nat | t < |vals| :: EscapedAt(b, Slot(i, n, t), n, vals[t]))
    && (forall v :: !EscapedAt(b, Slot(i, n, |vals|), n, v))
    && (0 < i <= |b| ==> b[i - 1] != '\\')
    && (forall j: nat, v | j + n + 3 == i && EscapedAt(b, j, n, v) :: j > 0 && b[j - 1] == '\\')
  }

  lemma RunIff(b: string, i: nat, n: nat, vals: seq<int>)
    ensures MaximalRun(b, i, n, vals) <==> RunAt(b, i, n, vals)
  {
    forall j: nat, v
      ensures OctalValue(b, j, n) == Some(v) <==> EscapedAt(b, j, n, v)
    {
      OctalIff(b, j, n, v);
    }
    NothingBeforeIff(b, i, n);
  }

  lemma NothingBeforeIff(b: string, i: nat, n: nat)
    ensures NothingBefore(b, i, n) <==>
            forall j: nat, v | j + n + 3 == i && EscapedAt(b, j, n, v) :: j > 0 && b[j - 1] == '\\'
  {
    if n + 3 <= i {
      var j: nat := i - n - 3;
      forall v {
        OctalIff(b, j, n, v);
      }
      assert Token(b, j, n) ==> EscapedAt(b, j, n, OctalValue(b, j, n).value);
      assert NothingBefore(b, i, n) <==> !Proper(b, j, n);
      assert Token(b, j, n) ==> (Starts(b, j) <==> !(j > 0 && b[j - 1] == '\\'));
    }
  }

  /** A run of eight octets begins at i. */
  ghost predicate NonceAt(b: string, i: nat) {
    exists n: nat, vals: seq<int> :: IsNonceRun(b, i, n, vals)
  }

  ghost predicate IsNonceRun(b: string, i: nat, n: nat, vals: seq<int>) {
    |vals| == 8 && RunAt(b, i, n, vals)
  }

  /** And these are its octets. */
  ghost predicate StandsAt(b: string, i: nat, vals: seq<int>) {
    exists n: nat :: IsNonceRun(b, i, n, vals)
  }

  lemma NonceIsHead(b: string, i: nat)
    requires i < |b|
    ensures NonceAt(b, i) <==> Head(b, i) && |RunValues(b, i, SlashRun(b, i))| == 8
    ensures NonceAt(b, i) ==> IsNonceRun(b, i, SlashRun(b, i), RunValues(b, i, SlashRun(b, i)))
  {
    var m := SlashRun(b, i);
    if Head(b, i) {
      EscapesAreRead(b, i, m);
      RunIff(b, i, m, RunValues(b, i, m));
      assert MaximalRun(b, i, m, RunValues(b, i, m));
      assert |RunValues(b, i, m)| == 8 ==> IsNonceRun(b, i, m, RunValues(b, i, m));
    }
    if n: nat, vals: seq<int> :| IsNonceRun(b, i, n, vals) {
      RunIff(b, i, n, vals);
      EscapesAreUnique(b, i, n, vals);
      assert OctalValue(b, Slot(i, n, 0), n) == Some(vals[0]);
      TokenHasAllSlashes(b, i, n);
    }
  }

  ghost function NonceAtOf(b: string): nat -> bool {
    (i: nat) => i < |b| && NonceAt(b, i)
  }

  function ValuesAt(b: string): nat -> seq<int> {
    (i: nat) => if i <= |b| then RunValues(b, i, SlashRun(b, i)) else []
  }

  lemma NonceGains(b: string, i: nat)
    requires i < |b|
    ensures Gains(RunsUpTo(b), NonceAtOf(b), ValuesAt(b), i)
  {
    NonceIsHead(b, i);
  }

  /** The scan finds exactly the maximal runs of eight octal escapes with equally many backslashes, in order. */
  lemma CandidatesAreTheMaximalRuns(b: string)
    ensures |Nonces(b)| == |Places(|b|, NonceAtOf(b))|
    ensures forall k | 0 <= k < |Nonces(b)| :: StandsAt(b, Places(|b|, NonceAtOf(b))[k], Nonces(b)[k])
  {
    forall i: nat | i < |b| {
      NonceGains(b, i);
    }
    Gathered(|b|, RunsUpTo(b), NonceAtOf(b), ValuesAt(b));
    assert RunsUpTo(b)(|b|) == Nonces(b);
    var places := Places(|b|, NonceAtOf(b));
    assert |Nonces(b)| == |places|;
    forall k | 0 <= k < |Nonces(b)|
      ensures StandsAt(b, places[k], Nonces(b)[k])
    {
      assert places[k] in places;
      NonceIsHead(b, places[k]);
      assert Nonces(b)[k] == ValuesAt(b)(places[k]);
    }
  }

  /** One run of eight octets and no other. */
  ghost predicate HasOneNonce(b: string) {
    exists i: nat :: OnlyNonceAt(b, i)
  }

  ghost predicate OnlyNonceAt(b: string, i: nat) {
    i < |b| && forall j: nat | j < |b| :: NonceAt(b, j) <==> j == i
  }

  ghost predicate IsItsNonce(b: string, vals: seq<int>) {
    exists i: nat :: OnlyNonceAt(b, i) && StandsAt(b, i, vals)
  }

  lemma OneNonceIff(b: string)
    ensures |Nonces(b)| == 1 <==> HasOneNonce(b)
    ensures |Nonces(b)| == 1 ==> IsItsNonce(b, Nonces(b)[0])
  {
    CandidatesAreTheMaximalRuns(b);
    OnePlace(|b|, NonceAtOf(b));
    forall i: nat
      ensures OnlyNonceAt(b, i) <==> OnlyAt(|b|, NonceAtOf(b), i)
    {
      OnlyIff(b, i);
    }
  }

  lemma OnlyIff(b: string, i: nat)
    ensures OnlyNonceAt(b, i) <==> OnlyAt(|b|, NonceAtOf(b), i)
  {
    forall j: nat | j < |b|
      ensures NonceAtOf(b)(j) <==> NonceAt(b, j)
    {
    }
  }
}
