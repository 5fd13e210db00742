/** Saving a SIMT stack as text and reading it back: `print_checkpoint` and `resume`. */
module Checkpoint {
  import opened SimtStacks
  import opened Options
  import opened PageArithmetic

  // ----- machine integers ---------------------------------------------------------------------

  const TWO32: int := 0x1_0000_0000
  const TWO64: int := PC_SPACE

  /** The low 32 bits as a signed number: what `%d` prints and what `(int)strtol` keeps. */
  function Signed32(x: int): int {
    var low := x % TWO32;
    if low < TWO32 / 2 then low else low - TWO32
  }

  /** A 64-bit value as a signed number: what `%lld` prints. */
  function Signed64(x: int): int {
    var low := x % TWO64;
    if low < TWO64 / 2 then low else low - TWO64
  }

  /** 64-bit values that survive a trip through a signed 32-bit number. */
  predicate Survives(x: int) {
    0 <= x < 0x8000_0000 || 0xFFFF_FFFF_8000_0000 <= x < 0x1_0000_0000_0000_0000
  }

  lemma Survives32(x: int)
    requires 0 <= x < TWO64
    ensures Signed32(x) % TWO64 == x <==> Survives(x)
  {
  }

  lemma Survives64(x: int)
    requires 0 <= x < TWO64
    ensures Signed32(Signed64(x)) % TWO64 == x <==> Survives(x)
  {
    Survives32(x);
    QuotientIs(x - TWO64, x / TWO32 - TWO32, x % TWO32, TWO32);
    assert Signed64(x) % TWO32 == x % TWO32;
  }

  // ----- decimal numbers -----------------------------------------------------------------------

  predicate IsDigit(c: char) {
    '0' <= c <= '9'
  }

  function Digit(d: nat): (c: char)
    requires d < 10
    ensures IsDigit(c) && c as int - '0' as int == d
  {
    '0' + d as char
  }

  function Digits(n: nat): (s: string)
    ensures s != "" && forall i | 0 <= i < |s| :: IsDigit(s[i])
  {
    if n < 10 then [Digit(n)] else Digits(n / 10) + [Digit(n % 10)]
  }

  /** `%d` and `%lld`. */
  function Decimal(n: int): (s: string)
    ensures s != "" && forall i | 0 <= i < |s| :: s[i] != ' ' && s[i] != '\n'
  {
    if n < 0 then "-" + Digits(-n) else Digits(n)
  }

  /** The digits at the start of `s`, read after `acc`. */
  function ReadDigits(s: string, acc: int): int {
    if s == "" || !IsDigit(s[0]) then acc
    else ReadDigits(s[1..], acc * 10 + (s[0] as int - '0' as int))
  }

  function ReadDecimal(s: string): int {
    if s != "" && s[0] == '-' then -ReadDigits(s[1..], 0) else ReadDigits(s, 0)
  }

  /** `atoi`: the value is converted to a 32-bit `int`. */
  function Atoi(s: string): int {
    Signed32(ReadDecimal(s))
  }

  lemma {:induction false} DigitsReadBack(n: nat, t: string)
    ensures ReadDigits(Digits(n) + t, 0) == ReadDigits(t, n)
  {
    var c := [Digit(n % 10)];
    assert (c + t)[0] == c[0] && (c + t)[1..] == t;
    if n < 10 {
      assert Digits(n) == c;
    } else {
      DigitsReadBack(n / 10, c + t);
      assert Digits(n) + t == Digits(n / 10) + (c + t);
    }
  }

  lemma DecimalReadBack(n: int)
    ensures ReadDecimal(Decimal(n)) == n
  {
    var k := if n < 0 then -n else n;
    DigitsReadBack(k, "");
    assert Digits(k) + "" == Digits(k);
    if n < 0 {
      assert ("-" + Digits(k))[1..] == Digits(k);
    } else {
      assert IsDigit(Digits(k)[0]);
    }
  }

  // ----- tokens ---------------------------------------------------------------------------------

  predicate IsToken(t: string) {
    t != "" && forall i | 0 <= i < |t| :: t[i] != ' '
  }

  /** Position of the first blank, or the end. */
  function Blank(s: string, i: nat := 0): (k: nat)
    requires i <= |s|
    ensures i <= k <= |s| && (forall j | i <= j < k :: s[j] != ' ') && (k < |s| ==> s[k] == ' ')
    decreases |s| - i
  {
    if i == |s| || s[i] == ' ' then i else Blank(s, i + 1)
  }

  /** `strtok(_, " ")` until it returns null. */
  function Tokens(s: string): seq<string>
    decreases |s|
  {
    if s == "" then []
    else if s[0] == ' ' then Tokens(s[1..])
    else [s[..Blank(s)]] + Tokens(s[Blank(s)..])
  }

  lemma TokenFirst(t: string, rest: string)
    requires IsToken(t)
    ensures Tokens(t + " " + rest) == [t] + Tokens(rest)
  {
    var s := t + " " + rest;
    assert s[|t|] == ' ' && forall i | 0 <= i < |t| :: s[i] == t[i];
    BlankIs(s, 0, |t|);
    assert s[..|t|] == t && s[|t|..] == " " + rest;
    assert (" " + rest)[0] == ' ' && (" " + rest)[1..] == rest;
    assert Tokens(" " + rest) == Tokens(rest);
  }

  lemma BlankIs(s: string, i: nat, k: nat)
    requires i <= k < |s| && s[k] == ' ' && forall j | i <= j < k :: s[j] != ' '
    ensures Blank(s, i) == k
  {
  }

  lemma TokenLast(t: string)
    requires IsToken(t)
    ensures Tokens(t) == [t]
  {
    assert Blank(t) == |t|;
    assert t[..|t|] == t && t[|t|..] == "";
  }

  /** Tokens, each followed by a blank. */
  function Spaced(ts: seq<string>): string {
    if ts == [] then "" else ts[0] + " " + Spaced(ts[1..])
  }

  lemma SpacedCons(ts: seq<string>, last: string)
    requires ts != []
    ensures Spaced(ts) + last == ts[0] + " " + (Spaced(ts[1..]) + last)
  {
  }

  lemma TokensStep(ts: seq<string>, last: string, r: seq<string>)
    requires ts != [] && IsToken(ts[0]) && Tokens(Spaced(ts[1..]) + last) == r
    ensures Tokens(Spaced(ts) + last) == [ts[0]] + r
  {
    SpacedCons(ts, last);
    TokenFirst(ts[0], Spaced(ts[1..]) + last);
  }

  lemma {:induction false} SpacedTokens(ts: seq<string>, last: string)
    requires (forall t | t in ts :: IsToken(t)) && IsToken(last)
    ensures Tokens(Spaced(ts) + last) == ts + [last]
  {
    if ts == [] {
      TokenLast(last);
      assert "" + last == last;
    } else {
      assert ts[0] in ts && forall t | t in ts[1..] :: t in ts;
      SpacedTokens(ts[1..], last);
      var r := ts[1..] + [last];
      TokensStep(ts, last, r);
      assert ts + [last] == [ts[0]] + r;
    }
  }

  // ----- one entry, one line ---------------------------------------------------------------------

  const MAX_WARP_SIZE: nat := 32
  /** `char line[200]`: `fgets` reads at most 199 characters. */
  const LINE_LIMIT: nat := 199

  function MaskTokens(mask: set<nat>, n: nat): (ts: seq<string>)
    ensures |ts| == n && forall j | 0 <= j < n :: ts[j] == if j in mask then "1" else "0"
  {
    if n == 0 then [] else MaskTokens(mask, n - 1) + [if n - 1 in mask then "1" else "0"]
  }

  /** Everything on the line but the warp size. */
  function EntryTokens(e: Entry, warpId: nat, warpSize: nat): seq<string> {
    MaskTokens(e.mask, warpSize) +
    [Decimal(Signed32(e.pc)), Decimal(Signed32(e.callDepth)), Decimal(Signed32(e.recvgPc)),
     Decimal(Signed64(e.divCycle)), Decimal(if e.kind.Normal? then 0 else 1), Decimal(Signed32(warpId))]
  }

  function Line(e: Entry, warpId: nat, warpSize: nat): string {
    Spaced(EntryTokens(e, warpId, warpSize)) + Decimal(Signed32(warpSize)) + "\n"
  }

  function Printed(stack: seq<Entry>, warpId: nat, warpSize: nat): string {
    if stack == [] then "" else Line(stack[0], warpId, warpSize) + Printed(stack[1..], warpId, warpSize)
  }

  predicate NonEmptyTokens(ts: seq<string>) {
    forall i | 0 <= i < |ts| :: ts[i] != ""
  }

  /** The entry on a line; none when a token is missing, where the source would read through
      a null pointer. */
  function ParseEntry(ts: seq<string>, warpSize: nat): Option<Entry>
    requires NonEmptyTokens(ts)
  {
    if |ts| < warpSize + 5 then None else
    Some(Entry(
      Atoi(ts[warpSize]) % TWO64,
      Atoi(ts[warpSize + 1]) % TWO32,
      MaskOf(ts, warpSize),
      Atoi(ts[warpSize + 2]) % TWO64,
      Atoi(ts[warpSize + 3]) % TWO64,
      if ts[warpSize + 4][0] == '0' then Normal else Call))
  }

  function MaskOf(ts: seq<string>, n: nat): (mask: set<nat>)
    requires n <= |ts| && NonEmptyTokens(ts)
    ensures forall j: nat :: j in mask <==> j < n && ts[j][0] == '1'
  {
    if n == 0 then {} else MaskOf(ts, n - 1) + if ts[n - 1][0] == '1' then {n - 1} else {}
  }

  lemma {:induction false} TokensNonEmpty(s: string)
    ensures NonEmptyTokens(Tokens(s))
    decreases |s|
  {
    if s != "" {
      if s[0] == ' ' {
        TokensNonEmpty(s[1..]);
      } else {
        TokensNonEmpty(s[Blank(s)..]);
      }
    }
  }

  /** An entry after a trip through the text. */
  function Trip(e: Entry): Entry {
    Entry(Signed32(e.pc) % TWO64, Signed32(e.callDepth) % TWO32, e.mask, Signed32(e.recvgPc) % TWO64,
          Signed32(Signed64(e.divCycle)) % TWO64, e.kind)
  }

  /** The C++ fields have their machine ranges. */
  predicate InRange(e: Entry, warpSize: nat) {
    && 0 <= e.pc < TWO64 && 0 <= e.recvgPc < TWO64 && e.divCycle < TWO64 && e.callDepth < TWO32
    && (forall t | t in e.mask :: t < warpSize)
  }

  /** All numbers of the entry fit what the text can carry. */
  predicate Storable(e: Entry) {
    Survives(e.pc) && Survives(e.recvgPc) && Survives(e.divCycle)
  }

  lemma TripIsIdentity(e: Entry, warpSize: nat)
    requires InRange(e, warpSize)
    ensures Trip(e) == e <==> Storable(e)
  {
    Survives32(e.pc);
    Survives32(e.recvgPc);
    Survives64(e.divCycle);
    assert Signed32(e.callDepth) % TWO32 == e.callDepth;
  }

  lemma AtoiDecimal(n: int)
    ensures Atoi(Decimal(n)) == Signed32(n)
  {
    DecimalReadBack(n);
  }

  lemma Signed32Idempotent(x: int)
    ensures Signed32(Signed32(x)) == Signed32(x)
  {
  }

  lemma DecimalToken(n: int)
    ensures IsToken(Decimal(n)) && IsToken(Decimal(n) + "\n")
  {
  }

  lemma LineTokens(e: Entry, warpId: nat, warpSize: nat)
    ensures Tokens(Line(e, warpId, warpSize)) ==
      EntryTokens(e, warpId, warpSize) + [Decimal(Signed32(warpSize)) + "\n"]
  {
    var ts, last := EntryTokens(e, warpId, warpSize), Decimal(Signed32(warpSize)) + "\n";
    DecimalToken(Signed32(warpSize));
    EntryTokensPlain(e, warpId, warpSize);
    SpacedTokens(ts, last);
    assert Line(e, warpId, warpSize) == Spaced(ts) + last;
  }

  lemma ParsedLine(e: Entry, warpId: nat, warpSize: nat)
    requires InRange(e, warpSize)
    ensures NonEmptyTokens(Tokens(Line(e, warpId, warpSize)))
    ensures ParseEntry(Tokens(Line(e, warpId, warpSize)), warpSize) == Some(Trip(e))
  {
    var ts := Tokens(Line(e, warpId, warpSize));
    TokensNonEmpty(Line(e, warpId, warpSize));
    LineTokens(e, warpId, warpSize);
    AtoiDecimal(Signed32(e.pc));
    AtoiDecimal(Signed32(e.callDepth));
    AtoiDecimal(Signed32(e.recvgPc));
    AtoiDecimal(Signed64(e.divCycle));
    Signed32Idempotent(e.pc);
    Signed32Idempotent(e.callDepth);
    Signed32Idempotent(e.recvgPc);
    assert forall j | 0 <= j < warpSize :: ts[j] == if j in e.mask then "1" else "0";
    assert MaskOf(ts, warpSize) == e.mask;
    assert Decimal(0) == "0" && Decimal(1) == "1";
  }

  // ----- lines ---------------------------------------------------------------------------------------

  /** How much `fgets` takes: up to and including the first newline, within the limit. */
  function LineLength(s: string, i: nat := 0): (n: nat)
    requires i <= |s| && i <= LINE_LIMIT && (i < |s| || i > 0)
    ensures i <= n <= |s| && (s != "" ==> n > 0)
    decreases |s| - i
  {
    if i == |s| || i == LINE_LIMIT then i
    else if s[i] == '\n' then i + 1
    else LineLength(s, i + 1)
  }

  lemma LineLengthIs(s: string, i: nat, k: nat)
    requires i <= k < |s| && k < LINE_LIMIT && s[k] == '\n' && forall j | i <= j < k :: s[j] != '\n'
    ensures LineLength(s, i) == k + 1
    decreases k - i
  {
  }

  function Parsed(s: string, warpSize: nat): Option<seq<Entry>>
    decreases |s|
  {
    if s == "" then Some([]) else
    var n := LineLength(s);
    TokensNonEmpty(s[..n]);
    match ParseEntry(Tokens(s[..n]), warpSize)
    case None => None
    case Some(e) =>
      match Parsed(s[n..], warpSize)
      case None => None
      case Some(rest) => Some([e] + rest)
  }

  function Power10(k: nat): nat {
    if k == 0 then 1 else 10 * Power10(k - 1)
  }

  lemma {:induction false} DigitsLength(n: nat, k: nat)
    requires k > 0 && n < Power10(k)
    ensures |Digits(n)| <= k
  {
    assert Power10(1) == 10;
    if n >= 10 {
      DigitsLength(n / 10, k - 1);
    }
  }

  lemma Decimal32Length(x: int)
    ensures |Decimal(Signed32(x))| <= 11
  {
    var n := Signed32(x);
    assert Power10(5) == 100000;
    assert Power10(10) == 100000 * Power10(5) by {
      assert Power10(6) == 10 * Power10(5) && Power10(7) == 10 * Power10(6) && Power10(8) == 10 * Power10(7);
      assert Power10(9) == 10 * Power10(8) && Power10(10) == 10 * Power10(9);
    }
    DigitsLength(if n < 0 then -n else n, 10);
  }

  lemma Decimal64Length(x: int)
    ensures |Decimal(Signed64(x))| <= 21
  {
    var n := Signed64(x);
    var k := if n < 0 then -n else n;
    assert k <= 0x8000_0000_0000_0000;
    Power10At20();
    DigitsLength(k, 20);
  }

  lemma Power10At20()
    ensures Power10(20) == 100000000000000000000
  {
    assert Power10(5) == 100000;
    assert Power10(6) == 10 * Power10(5) && Power10(7) == 10 * Power10(6) && Power10(8) == 10 * Power10(7);
    assert Power10(9) == 10 * Power10(8) && Power10(10) == 10 * Power10(9) && Power10(11) == 10 * Power10(10);
    assert Power10(12) == 10 * Power10(11) && Power10(13) == 10 * Power10(12) && Power10(14) == 10 * Power10(13);
    assert Power10(15) == 10 * Power10(14) && Power10(16) == 10 * Power10(15) && Power10(17) == 10 * Power10(16);
    assert Power10(18) == 10 * Power10(17) && Power10(19) == 10 * Power10(18) && Power10(20) == 10 * Power10(19);
  }

  lemma {:induction false} SpacedLength(ts: seq<string>, us: seq<string>)
    ensures Spaced(ts + us) == Spaced(ts) + Spaced(us)
  {
    if ts == [] {
      assert ts + us == us;
    } else {
      SpacedLength(ts[1..], us);
      assert (ts + us)[0] == ts[0] && (ts + us)[1..] == ts[1..] + us;
    }
  }

  lemma {:induction false} MaskLength(mask: set<nat>, n: nat)
    ensures |Spaced(MaskTokens(mask, n))| == 2 * n
  {
    if n > 0 {
      MaskLength(mask, n - 1);
      var last := [if n - 1 in mask then "1" else "0"];
      SpacedLength(MaskTokens(mask, n - 1), last);
      assert last[1..] == [] && Spaced(last) == last[0] + " " + "";
    }
  }

  /** The line of an entry fits the buffer of `resume` for every warp size there is. */
  lemma LineFits(e: Entry, warpId: nat, warpSize: nat)
    requires warpSize <= MAX_WARP_SIZE
    ensures |Line(e, warpId, warpSize)| <= LINE_LIMIT
  {
    var k := if e.kind.Normal? then 0 else 1;
    var us := [Decimal(Signed32(e.pc)), Decimal(Signed32(e.callDepth)), Decimal(Signed32(e.recvgPc)),
               Decimal(Signed64(e.divCycle)), Decimal(k), Decimal(Signed32(warpId))];
    MaskLength(e.mask, warpSize);
    SpacedLength(MaskTokens(e.mask, warpSize), us);
    Decimal32Length(e.pc);
    Decimal32Length(e.callDepth);
    Decimal32Length(e.recvgPc);
    Decimal64Length(e.divCycle);
    Decimal32Length(warpId);
    Decimal32Length(warpSize);
    SixTokens(us[0], us[1], us[2], us[3], us[4], us[5]);
    assert |us[4]| == 1;
  }

  lemma SixTokens(a: string, b: string, c: string, d: string, e: string, f: string)
    ensures |Spaced([a, b, c, d, e, f])| == |a| + |b| + |c| + |d| + |e| + |f| + 6
  {
    assert [a, b, c, d, e, f][1..] == [b, c, d, e, f] && [b, c, d, e, f][1..] == [c, d, e, f];
    assert [c, d, e, f][1..] == [d, e, f] && [d, e, f][1..] == [e, f] && [e, f][1..] == [f] && [f][1..] == [];
    assert |Spaced([f])| == |f| + 1 && |Spaced([e, f])| == |e| + 1 + |Spaced([f])|;
    assert |Spaced([d, e, f])| == |d| + 1 + |Spaced([e, f])|;
    assert |Spaced([c, d, e, f])| == |c| + 1 + |Spaced([d, e, f])|;
    assert |Spaced([b, c, d, e, f])| == |b| + 1 + |Spaced([c, d, e, f])|;
  }

  lemma {:induction false} SpacedHasNoNewline(ts: seq<string>)
    requires forall t | t in ts :: NoNewline(t)
    ensures NoNewline(Spaced(ts))
  {
    if ts != [] {
      assert ts[0] in ts && forall t | t in ts[1..] :: t in ts;
      SpacedHasNoNewline(ts[1..]);
    }
  }

  predicate NoNewline(s: string) {
    forall i | 0 <= i < |s| :: s[i] != '\n'
  }

  lemma LineBreak(body: string, rest: string)
    requires NoNewline(body) && |body| < LINE_LIMIT
    ensures LineLength(body + "\n" + rest) == |body| + 1
  {
    var s := body + "\n" + rest;
    assert s[|body|] == '\n' && forall i | 0 <= i < |body| :: s[i] == body[i];
    LineLengthIs(s, 0, |body|);
  }

  lemma NumbersPlain(e: Entry, warpId: nat, j: nat)
    requires j < 6
    ensures var t := [Decimal(Signed32(e.pc)), Decimal(Signed32(e.callDepth)), Decimal(Signed32(e.recvgPc)),
        Decimal(Signed64(e.divCycle)), Decimal(if e.kind.Normal? then 0 else 1), Decimal(Signed32(warpId))][j];
      IsToken(t) && NoNewline(t)
  {
  }

  lemma EntryTokensPlain(e: Entry, warpId: nat, warpSize: nat)
    ensures forall t | t in EntryTokens(e, warpId, warpSize) :: IsToken(t) && NoNewline(t)
  {
    var bits, ts := MaskTokens(e.mask, warpSize), EntryTokens(e, warpId, warpSize);
    forall t | t in ts ensures IsToken(t) && NoNewline(t) {
      var j :| 0 <= j < |ts| && ts[j] == t;
      if j < warpSize {
        assert t == bits[j] && (t == "0" || t == "1");
      } else {
        NumbersPlain(e, warpId, j - warpSize);
      }
    }
  }

  /** `fgets` takes exactly the first line of the text. */
  lemma FirstLine(e: Entry, warpId: nat, warpSize: nat, rest: string)
    requires warpSize <= MAX_WARP_SIZE
    ensures LineLength(Line(e, warpId, warpSize) + rest) == |Line(e, warpId, warpSize)|
  {
    LineFits(e, warpId, warpSize);
    EntryTokensPlain(e, warpId, warpSize);
    SpacedHasNoNewline(EntryTokens(e, warpId, warpSize));
    LineBreak(Spaced(EntryTokens(e, warpId, warpSize)) + Decimal(Signed32(warpSize)), rest);
  }

  function Trips(stack: seq<Entry>): (r: seq<Entry>)
    ensures |r| == |stack| && forall i | 0 <= i < |r| :: r[i] == Trip(stack[i])
  {
    if stack == [] then [] else [Trip(stack[0])] + Trips(stack[1..])
  }

  lemma {:induction false} ParsedPrinted(stack: seq<Entry>, warpId: nat, warpSize: nat)
    requires warpSize <= MAX_WARP_SIZE && forall e | e in stack :: InRange(e, warpSize)
    ensures Parsed(Printed(stack, warpId, warpSize), warpSize) == Some(Trips(stack))
  {
    if stack != [] {
      var e, rest := stack[0], Printed(stack[1..], warpId, warpSize);
      assert e in stack && forall f | f in stack[1..] :: f in stack;
      ParsedPrinted(stack[1..], warpId, warpSize);
      FirstLine(e, warpId, warpSize, rest);
      ParsedLine(e, warpId, warpSize);
      var line := Line(e, warpId, warpSize);
      assert (line + rest)[..|line|] == line && (line + rest)[|line|..] == rest;
    }
  }

  /** Resuming from the printed text gives the stack back, entry for entry and in order, if
      and only if every pc, reconvergence pc and cycle survives the 32-bit format. */
  lemma CheckpointRoundTrip(stack: seq<Entry>, warpId: nat, warpSize: nat)
    requires warpSize <= MAX_WARP_SIZE && forall e | e in stack :: InRange(e, warpSize)
    ensures Parsed(Printed(stack, warpId, warpSize), warpSize) == Some(stack) <==> forall e | e in stack :: Storable(e)
  {
    ParsedPrinted(stack, warpId, warpSize);
    forall i | 0 <= i < |stack| ensures Trips(stack)[i] == stack[i] <==> Storable(stack[i]) {
      assert stack[i] in stack;
      TripIsIdentity(stack[i], warpSize);
    }
    if forall e | e in stack :: Storable(e) {
      assert forall i | 0 <= i < |stack| :: stack[i] in stack;
      assert Trips(stack) == stack;
    } else {
      var e :| e in stack && !Storable(e);
      var i :| 0 <= i < |stack| && stack[i] == e;
      assert Trips(stack)[i] != stack[i];
    }
  }

  /** A pc of 2^31 does not come back. */
  lemma LargePcExample(warpId: nat)
    ensures var stack := [Entry(0x8000_0000, 1, {0}, NULL_PC, 0, Normal)];
      Parsed(Printed(stack, warpId, 32), 32) != Some(stack)
  {
    var e := Entry(0x8000_0000, 1, {0}, NULL_PC, 0, Normal);
    assert InRange(e, 32) && !Storable(e) && e in [e];
    CheckpointRoundTrip([e], warpId, 32);
  }

  // ----- the text -----------------------------------------------------------------------------------------

  /** `n` is the low 32 bits of `x`, read as a signed number. */
  ghost predicate IsLow32(n: int, x: int) {
    -0x8000_0000 <= n < 0x8000_0000 && (x - n) % 0x1_0000_0000 == 0
  }

  ghost predicate IsLow64(n: int, x: int) {
    -0x8000_0000_0000_0000 <= n < 0x8000_0000_0000_0000 && (x - n) % 0x1_0000_0000_0000_0000 == 0
  }

  lemma SignedIsLow32(x: int)
    ensures IsLow32(Signed32(x), x)
  {
    var n := Signed32(x);
    var k := if n < 0 then x / TWO32 + 1 else x / TWO32;
    assert x - n == k * TWO32 + 0;
    QuotientIs(x - n, k, 0, TWO32);
  }

  lemma SignedIsLow64(x: int)
    ensures IsLow64(Signed64(x), x)
  {
    var n := Signed64(x);
    var k := if n < 0 then x / TWO64 + 1 else x / TWO64;
    assert x - n == k * TWO64 + 0;
    QuotientIs(x - n, k, 0, TWO64);
  }

  /** The numbers on a line and their order: one bit for each thread, pc, call depth, reconvergence
      pc, cycle, type, warp, warp size. */
  lemma LineNumbers(e: Entry, warpId: nat, warpSize: nat)
    ensures var ts := Tokens(Line(e, warpId, warpSize));
      && |ts| == warpSize + 7
      && (forall t: nat | t < warpSize :: ts[t] == if t in e.mask then "1" else "0")
      && IsLow32(ReadDecimal(ts[warpSize]), e.pc) && IsLow32(ReadDecimal(ts[warpSize + 1]), e.callDepth)
      && IsLow32(ReadDecimal(ts[warpSize + 2]), e.recvgPc) && IsLow64(ReadDecimal(ts[warpSize + 3]), e.divCycle)
      && ts[warpSize + 4] == (if e.kind.Normal? then "0" else "1")
      && IsLow32(ReadDecimal(ts[warpSize + 5]), warpId)
      && ts[warpSize + 6] == Decimal(Signed32(warpSize)) + "\n"
  {
    LineTokens(e, warpId, warpSize);
    DecimalReadBack(Signed32(e.pc));
    DecimalReadBack(Signed32(e.callDepth));
    DecimalReadBack(Signed32(e.recvgPc));
    DecimalReadBack(Signed64(e.divCycle));
    DecimalReadBack(Signed32(warpId));
    SignedIsLow32(e.pc);
    SignedIsLow32(e.callDepth);
    SignedIsLow32(e.recvgPc);
    SignedIsLow64(e.divCycle);
    SignedIsLow32(warpId);
    assert Decimal(0) == "0" && Decimal(1) == "1";
  }

  /** The numbers a line must hold, and what its entry is; anything after the type is ignored. */
  lemma ParsedNumbers(ts: seq<string>, warpSize: nat)
    requires NonEmptyTokens(ts)
    ensures ParseEntry(ts, warpSize).Some? <==> |ts| >= warpSize + 5
    ensures |ts| >= warpSize + 5 ==>
      var e := ParseEntry(ts, warpSize).value;
      && (forall t: nat :: t in e.mask <==> t < warpSize && ts[t][0] == '1')
      && (e.pc - ReadDecimal(ts[warpSize])) % 0x1_0000_0000 == 0
      && Survives(e.pc) && Survives(e.recvgPc) && Survives(e.divCycle) && e.callDepth < 0x1_0000_0000
      && (e.callDepth - ReadDecimal(ts[warpSize + 1])) % 0x1_0000_0000 == 0
      && (e.recvgPc - ReadDecimal(ts[warpSize + 2])) % 0x1_0000_0000 == 0
      && (e.divCycle - ReadDecimal(ts[warpSize + 3])) % 0x1_0000_0000 == 0
      && (e.kind.Normal? <==> ts[warpSize + 4][0] == '0')
  {
    if |ts| >= warpSize + 5 {
      AtoiIsLow(ts[warpSize]);
      AtoiIsLow(ts[warpSize + 1]);
      AtoiIsLow(ts[warpSize + 2]);
      AtoiIsLow(ts[warpSize + 3]);
    }
  }

  lemma AtoiIsLow(s: string)
    ensures var x := Atoi(s) % TWO64;
      Survives(x) && (x - ReadDecimal(s)) % 0x1_0000_0000 == 0
    ensures (Atoi(s) % TWO32 - ReadDecimal(s)) % 0x1_0000_0000 == 0
  {
  }

  /** `fgets` takes a line with its newline, or 199 characters, or all there is. */
  lemma {:induction false} LineLengthExact(s: string, i: nat)
    requires i <= |s| && i <= 199 && (i < |s| || i > 0)
    ensures var n := LineLength(s, i);
      && i <= n <= 199 && (forall k | i <= k < n - 1 :: s[k] != '\n')
      && ((n > i && s[n - 1] == '\n') || n == 199 || n == |s|)
    decreases |s| - i
  {
    if i < |s| && i < 199 && s[i] != '\n' {
      LineLengthExact(s, i + 1);
    }
  }

  // ----- the loops of the source -----------------------------------------------------------------------

  lemma PrintedCons(e: Entry, stack: seq<Entry>, warpId: nat, warpSize: nat)
    ensures Printed([e] + stack, warpId, warpSize) == Line(e, warpId, warpSize) + Printed(stack, warpId, warpSize)
  {
    assert ([e] + stack)[0] == e && ([e] + stack)[1..] == stack;
  }

  lemma SpacedAppend(ts: seq<string>, t: string)
    ensures Spaced(ts + [t]) == Spaced(ts) + t + " "
  {
    SpacedLength(ts, [t]);
    assert [t][1..] == [] && Spaced([t]) == t + " " + "";
  }

  lemma NumbersSpaced(ts: seq<string>, a: string, b: string, c: string, d: string, e: string, f: string)
    ensures Spaced(ts + [a, b, c, d, e, f]) ==
      Spaced(ts) + a + " " + b + " " + c + " " + d + " " + e + " " + f + " "
  {
    SpacedAppend(ts, a);
    SpacedAppend(ts + [a], b);
    SpacedAppend(ts + [a] + [b], c);
    SpacedAppend(ts + [a] + [b] + [c], d);
    SpacedAppend(ts + [a] + [b] + [c] + [d], e);
    SpacedAppend(ts + [a] + [b] + [c] + [d] + [e], f);
    assert ts + [a] + [b] + [c] + [d] + [e] + [f] == ts + [a, b, c, d, e, f];
  }

  /** One round of the loop in `print_checkpoint`. */
  method PrintEntry(e: Entry, warpId: nat, warpSize: nat) returns (out: string)
    ensures out == Line(e, warpId, warpSize)
  {
    out := "";
    for j := 0 to warpSize
      invariant out == Spaced(MaskTokens(e.mask, j))
    {
      SpacedAppend(MaskTokens(e.mask, j), if j in e.mask then "1" else "0");
      out := out + (if j in e.mask then "1" else "0") + " ";
    }
    NumbersSpaced(MaskTokens(e.mask, warpSize),
      Decimal(Signed32(e.pc)), Decimal(Signed32(e.callDepth)), Decimal(Signed32(e.recvgPc)),
      Decimal(Signed64(e.divCycle)), Decimal(if e.kind.Normal? then 0 else 1), Decimal(Signed32(warpId)));
    out := out + Decimal(Signed32(e.pc)) + " " + Decimal(Signed32(e.callDepth)) + " "
      + Decimal(Signed32(e.recvgPc)) + " " + Decimal(Signed64(e.divCycle)) + " "
      + Decimal(if e.kind.Normal? then 0 else 1) + " " + Decimal(Signed32(warpId)) + " ";
    out := out + Decimal(Signed32(warpSize)) + "\n";
  }

  /** `out` is what has been printed before entry `k`. */
  ghost predicate PrintedUpTo(out: string, stack: seq<Entry>, k: nat, warpId: nat, warpSize: nat)
    requires k <= |stack|
  {
    out + Printed(stack[k..], warpId, warpSize) == Printed(stack, warpId, warpSize)
  }

  lemma PrintedAll(out: string, stack: seq<Entry>, warpId: nat, warpSize: nat)
    requires PrintedUpTo(out, stack, |stack|, warpId, warpSize)
    ensures out == Printed(stack, warpId, warpSize)
  {
    assert stack[|stack|..] == [] && Printed([], warpId, warpSize) == "";
  }

  lemma PrintedMore(out: string, stack: seq<Entry>, k: nat, warpId: nat, warpSize: nat)
    requires k < |stack| && PrintedUpTo(out, stack, k, warpId, warpSize)
    ensures PrintedUpTo(out + Line(stack[k], warpId, warpSize), stack, k + 1, warpId, warpSize)
  {
    PrintedStep(out, stack, k, warpId, warpSize);
  }

  lemma PrintedNothing(stack: seq<Entry>, warpId: nat, warpSize: nat)
    ensures PrintedUpTo("", stack, 0, warpId, warpSize)
  {
    assert stack[0..] == stack && "" + Printed(stack, warpId, warpSize) == Printed(stack, warpId, warpSize);
  }

  method PrintStack(stack: seq<Entry>, warpId: nat, warpSize: nat) returns (out: string)
    ensures out == Printed(stack, warpId, warpSize)
  {
    out := "";
    PrintedNothing(stack, warpId, warpSize);
    for k := 0 to |stack|
      invariant PrintedUpTo(out, stack, k, warpId, warpSize)
    {
      var line := PrintEntry(stack[k], warpId, warpSize);
      PrintedMore(out, stack, k, warpId, warpSize);
      out := out + line;
    }
    PrintedAll(out, stack, warpId, warpSize);
  }

  method PrintCheckpoint(s: SimtStack, warpId: nat) returns (out: string)
    ensures out == Printed(s.stack, warpId, s.warpSize)
  {
    out := PrintStack(s.stack, warpId, s.warpSize);
  }

  lemma PrintedStep(out: string, stack: seq<Entry>, k: nat, warpId: nat, warpSize: nat)
    requires k < |stack|
    ensures out + Printed(stack[k..], warpId, warpSize)
         == (out + Line(stack[k], warpId, warpSize)) + Printed(stack[k + 1..], warpId, warpSize)
  {
    PrintedCons(stack[k], stack[k + 1..], warpId, warpSize);
    assert [stack[k]] + stack[k + 1..] == stack[k..];
    Associative(out, Line(stack[k], warpId, warpSize), Printed(stack[k + 1..], warpId, warpSize));
  }

  lemma Associative(a: string, b: string, c: string)
    ensures a + (b + c) == (a + b) + c
  {
  }

  /** The body of the loop in `resume`: mask bits are set or reset one by one. */
  method ReadEntry(line: string, warpSize: nat) returns (r: Option<Entry>)
    ensures NonEmptyTokens(Tokens(line)) && r == ParseEntry(Tokens(line), warpSize)
  {
    var ts := Tokens(line);
    TokensNonEmpty(line);
    if |ts| < warpSize + 5 {
      return None;
    }
    var e := FRESH_ENTRY;
    for j := 0 to warpSize
      invariant e == FRESH_ENTRY.(mask := MaskOf(ts, j))
    {
      e := e.(mask := if ts[j][0] == '1' then e.mask + {j} else e.mask - {j});
      assert e.mask == MaskOf(ts, j + 1);
    }
    e := e.(pc := Atoi(ts[warpSize]) % TWO64);
    e := e.(callDepth := Atoi(ts[warpSize + 1]) % TWO32);
    e := e.(recvgPc := Atoi(ts[warpSize + 2]) % TWO64);
    e := e.(divCycle := Atoi(ts[warpSize + 3]) % TWO64);
    e := e.(kind := if ts[warpSize + 4][0] == '0' then Normal else Call);
    r := Some(e);
  }

  /** What is on the stack already, then what the rest of the text gives. */
  function Following(stack: seq<Entry>, rest: Option<seq<Entry>>): Option<seq<Entry>> {
    if rest.None? then None else Some(stack + rest.value)
  }

  /** One line read: its entry comes next. */
  lemma ParsedStep(stack: seq<Entry>, rest: string, warpSize: nat, e: Option<Entry>)
    requires rest != "" && NonEmptyTokens(Tokens(rest[..LineLength(rest)]))
    requires e == ParseEntry(Tokens(rest[..LineLength(rest)]), warpSize)
    ensures e.None? ==> Following(stack, Parsed(rest, warpSize)) == None
    ensures e.Some? ==> Following(stack, Parsed(rest, warpSize)) ==
                        Following(stack + [e.value], Parsed(rest[LineLength(rest)..], warpSize))
  {
    var tail := Parsed(rest[LineLength(rest)..], warpSize);
    if e.Some? && tail.Some? {
      assert stack + ([e.value] + tail.value) == (stack + [e.value]) + tail.value;
    }
  }

  lemma FollowingNothing(stack: seq<Entry>, text: string, warpSize: nat)
    ensures Following([], Parsed(text, warpSize)) == Parsed(text, warpSize)
    ensures Following(stack, Parsed("", warpSize)) == Some(stack)
  {
    assert stack + [] == stack;
    var p := Parsed(text, warpSize);
    assert p.Some? ==> [] + p.value == p.value;
  }

  /** False when the source would fault on a line with too few tokens. */
  method Resume(s: SimtStack, text: string) returns (ok: bool)
    modifies s`stack
    ensures ok == Parsed(text, s.warpSize).Some?
    ensures ok ==> Some(s.stack) == Parsed(text, s.warpSize)
  {
    s.stack := [];
    var rest := text;
    FollowingNothing([], text, s.warpSize);
    while rest != ""
      invariant Parsed(text, s.warpSize) == Following(s.stack, Parsed(rest, s.warpSize))
      decreases |rest|
    {
      var n := LineLength(rest);
      var e := ReadEntry(rest[..n], s.warpSize);
      ParsedStep(s.stack, rest, s.warpSize, e);
      if e.None? {
        return false;
      }
      s.stack := s.stack + [e.value];
      rest := rest[n..];
    }
    FollowingNothing(s.stack, text, s.warpSize);
    ok := true;
  }

  /** Printing a stack and resuming from the text leaves every entry as it was, exactly when
      all its numbers survive the 32-bit format; the result is never a fault. */
  method PrintThenResume(s: SimtStack, warpId: nat)
    requires s.warpSize <= MAX_WARP_SIZE && forall e | e in s.stack :: InRange(e, s.warpSize)
    modifies s`stack
    ensures s.stack == Trips(old(s.stack))
    ensures s.stack == old(s.stack) <==> forall e | e in old(s.stack) :: Storable(e)
  {
    var text := PrintCheckpoint(s, warpId);
    ParsedPrinted(s.stack, warpId, s.warpSize);
    CheckpointRoundTrip(s.stack, warpId, s.warpSize);
    var ok := Resume(s, text);
  }
}
