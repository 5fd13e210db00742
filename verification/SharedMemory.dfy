/** Shared-memory bank conflicts: how many cycles one warp instruction takes.

With full broadcast every word is read once, whoever asks for it; with limited
broadcast only one word of the whole subwarp is broadcast and every other access
counts on its own. */
module SharedMemory {
  import opened WarpParts
  import opened OrderedKeys

  const WORD_SIZE: nat := 4

  function Word(x: nat): nat {
    x - x % WORD_SIZE
  }

  function Bank(x: nat, banks: nat): nat
    requires banks > 0
  {
    x / WORD_SIZE % banks
  }

  /** The bank that serves a word, for a given number of banks. */
  type BankMap = int -> int

  function BankOf(banks: nat): BankMap
    requires banks > 0
  {
    (w: int) => if w < 0 then -1 else Bank(w, banks)
  }

  lemma BankOfWord(x: nat, banks: nat)
    requires banks > 0
    ensures BankOf(banks)(Word(x)) == Bank(x, banks)
  {
    assert Word(x) == WORD_SIZE * (x / WORD_SIZE);
  }

  // ----- words, counts and banks of a list of accessed words -------------------------------------------

  /** Number of accesses to word `w`. */
  ghost function Count(l: seq<int>, w: int): nat {
    if l == [] then 0 else Count(l[..|l| - 1], w) + if l[|l| - 1] == w then 1 else 0
  }

  ghost function Words(l: seq<int>): (s: set<int>)
    ensures forall w :: w in s <==> w in l
  {
    if l == [] then {} else Words(l[..|l| - 1]) + {l[|l| - 1]}
  }

  ghost function BankWords(l: seq<int>, bank: BankMap, b: int): set<int>
  {
    set w | w in Words(l) && bank(w) == b
  }

  lemma {:induction false} CountPositive(l: seq<int>, w: int)
    ensures w in Words(l) <==> Count(l, w) > 0
  {
    if l != [] {
      CountPositive(l[..|l| - 1], w);
    }
  }

  // ----- schedules ------------------------------------------------------------------------------

  /** Gives every word a cycle below `n` so that no bank serves two words in one cycle. */
  ghost predicate IsSchedule(cycle: map<int, nat>, l: seq<int>, bank: BankMap, n: nat)
  {
    && cycle.Keys == Words(l)
    && (forall w | w in cycle :: cycle[w] < n)
    && (forall v, w | v in cycle && w in cycle && v != w && bank(v) == bank(w) ::
          cycle[v] != cycle[w])
  }

  /** `n` is the largest number of different words in one bank. */
  ghost predicate IsMaxLoad(n: nat, l: seq<int>, bank: BankMap)
  {
    && (forall b :: |BankWords(l, bank, b)| <= n)
    && (n > 0 ==> exists b :: |BankWords(l, bank, b)| == n)
  }

  lemma {:induction false} InjectionCard(s: set<int>, f: map<int, nat>, n: nat)
    requires s <= f.Keys && (forall w | w in s :: f[w] < n)
    requires forall v, w | v in s && w in s && v != w :: f[v] != f[w]
    ensures |s| <= n
    decreases n
  {
    if s != {} {
      var first := Pick(s);
      assert f[first] < n;
      var k := n - 1;
      if w :| w in s && f[w] == k {
        InjectionCard(s - {w}, f, k);
      } else {
        InjectionCard(s, f, k);
      }
    }
  }

  /** No schedule is shorter than the largest bank load. */
  lemma ScheduleLowerBound(cycle: map<int, nat>, l: seq<int>, bank: BankMap, n: nat, load: nat)
    requires IsSchedule(cycle, l, bank, n) && IsMaxLoad(load, l, bank)
    ensures load <= n
  {
    if load > 0 {
      var b :| |BankWords(l, bank, b)| == load;
      InjectionCard(BankWords(l, bank, b), cycle, n);
    }
  }

  ghost function Rank(l: seq<int>, bank: BankMap, w: int): nat {
    |set v | v in BankWords(l, bank, bank(w)) && v < w|
  }

  lemma RankGrows(l: seq<int>, bank: BankMap, v: int, w: int)
    requires v < w && v in Words(l) && bank(v) == bank(w)
    ensures Rank(l, bank, v) < Rank(l, bank, w)
  {
    var ws := BankWords(l, bank, bank(w));
    var below, above := set u | u in ws && u < v, set u | u in ws && u < w;
    assert below + {v} <= above;
    SubsetCard(below + {v}, above);
  }

  lemma RankBelow(l: seq<int>, bank: BankMap, w: int)
    requires w in Words(l)
    ensures Rank(l, bank, w) < |BankWords(l, bank, bank(w))|
  {
    var ws := BankWords(l, bank, bank(w));
    var below := set v | v in ws && v < w;
    assert below + {w} <= ws;
    SubsetCard(below + {w}, ws);
  }

  /** Serving the words of each bank in address order takes the largest bank load. */
  lemma ScheduleExists(l: seq<int>, bank: BankMap, load: nat) returns (cycle: map<int, nat>)
    requires IsMaxLoad(load, l, bank)
    ensures IsSchedule(cycle, l, bank, load)
  {
    cycle := map w | w in Words(l) :: Rank(l, bank, w);
    forall w | w in cycle ensures cycle[w] < load {
      RankBelow(l, bank, w);
      assert |BankWords(l, bank, bank(w))| <= load;
    }
    forall v, w | v in cycle && w in cycle && v != w && bank(v) == bank(w)
      ensures cycle[v] != cycle[w]
    {
      if v < w {
        RankGrows(l, bank, v, w);
      } else {
        RankGrows(l, bank, w, v);
      }
    }
  }

  /** The cycle count with full broadcast is the optimum over all schedules. */
  lemma MaxLoadIsOptimal(l: seq<int>, bank: BankMap, load: nat)
    requires IsMaxLoad(load, l, bank)
    ensures exists cycle :: IsSchedule(cycle, l, bank, load)
    ensures forall n, cycle | IsSchedule(cycle, l, bank, n) :: load <= n
  {
    var cycle := ScheduleExists(l, bank, load);
    forall n, other | IsSchedule(other, l, bank, n) ensures load <= n {
      ScheduleLowerBound(other, l, bank, n, load);
    }
  }

  // ----- counting accesses per bank and word ------------------------------------------------------

  type BankAccs = map<int, map<int, nat>>

  ghost function BankCounts(l: seq<int>, bank: BankMap, b: int): map<int, nat>
  {
    map w | w in BankWords(l, bank, b) :: Count(l, w)
  }

  ghost predicate AccsAt(accs: BankAccs, l: seq<int>, bank: BankMap, b: int)
  {
    && (b in accs <==> BankCounts(l, bank, b) != map[])
    && (b in accs ==> accs[b] == BankCounts(l, bank, b))
  }

  ghost predicate AccsOf(accs: BankAccs, l: seq<int>, bank: BankMap)
  {
    forall b :: AccsAt(accs, l, bank, b)
  }

  /** Words accessed by the active threads `lo` to `hi - 1`. */
  function ActiveWords(addrs: seq<nat>, active: set<nat>, lo: nat, hi: nat): seq<int>
    requires hi <= |addrs|
    decreases hi
  {
    if hi <= lo then [] else
    ActiveWords(addrs, active, lo, hi - 1) + if hi - 1 in active then [Word(addrs[hi - 1])] else []
  }

  lemma CountAppend(l: seq<int>, w: int)
    ensures Words(l + [w]) == Words(l) + {w}
    ensures forall v :: Count(l + [w], v) == Count(l, v) + if v == w then 1 else 0
  {
    assert (l + [w])[..|l|] == l;
  }

  lemma OtherBankCounts(l: seq<int>, w: int, bank: BankMap, b: int)
    requires b != bank(w)
    ensures BankCounts(l + [w], bank, b) == BankCounts(l, bank, b)
  {
    CountAppend(l, w);
    assert BankWords(l + [w], bank, b) == BankWords(l, bank, b);
  }

  lemma OwnBankCounts(l: seq<int>, w: int, bank: BankMap)
    ensures BankCounts(l + [w], bank, bank(w)) == BankCounts(l, bank, bank(w))[w := Count(l, w) + 1]
  {
    CountAppend(l, w);
    var before, after := BankCounts(l, bank, bank(w)), BankCounts(l + [w], bank, bank(w));
    assert after.Keys == before.Keys + {w};
    OneCountChanges(before, after, w);
  }

  lemma OneCountChanges(before: map<int, nat>, after: map<int, nat>, w: int)
    requires after.Keys == before.Keys + {w} && forall v | v in before && v != w :: after[v] == before[v]
    ensures after == before[w := after[w]]
  {
    var changed := before[w := after[w]];
    forall v | v in after.Keys ensures v in changed && changed[v] == after[v] {
      assert v in before.Keys + {w};
    }
    assert changed.Keys == after.Keys;
  }

  /** The counts of the bank of `w` before one more access. */
  lemma CountsBefore(accs: BankAccs, w: int, bank: BankMap, l: seq<int>)
    requires AccsOf(accs, l, bank)
    ensures var words := if bank(w) in accs then accs[bank(w)] else map[];
      words == BankCounts(l, bank, bank(w)) && (if w in words then words[w] else 0) == Count(l, w)
  {
    assert AccsAt(accs, l, bank, bank(w));
    CountPositive(l, w);
  }

  lemma Recorded(accs: BankAccs, r: BankAccs, w: int, bank: BankMap, l: seq<int>)
    requires AccsOf(accs, l, bank)
    requires r == accs[bank(w) := BankCounts(l, bank, bank(w))[w := Count(l, w) + 1]]
    ensures AccsOf(r, l + [w], bank)
  {
    OwnBankCounts(l, w, bank);
    assert w in BankCounts(l + [w], bank, bank(w));
    forall c ensures AccsAt(r, l + [w], bank, c) {
      assert AccsAt(accs, l, bank, c);
      if c != bank(w) {
        OtherBankCounts(l, w, bank, c);
      }
    }
  }

  method Record(accs: BankAccs, w: int, b: int, ghost bank: BankMap, ghost l: seq<int>) returns (r: BankAccs)
    requires b == bank(w) && AccsOf(accs, l, bank)
    ensures AccsOf(r, l + [w], bank)
  {
    var words: map<int, nat> := if b in accs then accs[b] else map[];
    r := accs[b := words[w := (if w in words then words[w] else 0) + 1]];
    CountsBefore(accs, w, bank, l);
    Recorded(accs, r, w, bank, l);
  }

  lemma NextActiveWord(addrs: seq<nat>, active: set<nat>, lo: nat, t: nat)
    requires lo <= t < |addrs|
    ensures ActiveWords(addrs, active, lo, t + 1) ==
      var l := ActiveWords(addrs, active, lo, t); if t in active then l + [Word(addrs[t])] else l
  {
    var l := ActiveWords(addrs, active, lo, t);
    assert l + [] == l;
  }

  method CountAccesses(addrs: seq<nat>, active: set<nat>, lo: nat, hi: nat, banks: nat) returns (accs: BankAccs)
    requires banks > 0 && lo <= hi <= |addrs|
    ensures AccsOf(accs, ActiveWords(addrs, active, lo, hi), BankOf(banks))
  {
    ghost var bank := BankOf(banks);
    accs := map[];
    for t := lo to hi
      invariant AccsOf(accs, ActiveWords(addrs, active, lo, t), bank)
    {
      ghost var l := ActiveWords(addrs, active, lo, t);
      NextActiveWord(addrs, active, lo, t);
      if t in active {
        BankOfWord(addrs[t], banks);
        accs := Record(accs, Word(addrs[t]), Bank(addrs[t], banks), bank, l);
      }
    }
  }

  // ----- full broadcast -----------------------------------------------------------------------------

  /** The largest number of different words in one bank. */
  method FullBroadcastCycles(accs: BankAccs, ghost bank: BankMap, ghost l: seq<int>) returns (n: nat)
    requires AccsOf(accs, l, bank)
    ensures IsMaxLoad(n, l, bank)
  {
    n := 0;
    var keys := Enumerate(accs.Keys);
    for i := 0 to |keys|
      invariant forall k | 0 <= k < i :: |BankWords(l, bank, keys[k])| <= n
      invariant n > 0 ==> exists b :: |BankWords(l, bank, b)| == n
    {
      AscendingIn(keys, accs.Keys);
      assert AccsAt(accs, l, bank, keys[i]);
      assert accs[keys[i]].Keys == BankWords(l, bank, keys[i]);
      if |accs[keys[i]]| > n {
        n := |accs[keys[i]]|;
      }
    }
    forall b ensures |BankWords(l, bank, b)| <= n {
      assert AccsAt(accs, l, bank, b) && BankCounts(l, bank, b).Keys == BankWords(l, bank, b);
      if b in accs.Keys {
        assert b in keys;
      }
    }
  }

  // ----- limited broadcast ----------------------------------------------------------------------------

  /** Number of accesses served by bank `b`. */
  ghost function BankTotal(l: seq<int>, bank: BankMap, b: int): nat {
    if l == [] then 0 else BankTotal(l[..|l| - 1], bank, b) + if bank(l[|l| - 1]) == b then 1 else 0
  }

  /** The word that is broadcast: the first of the first bank with a word hit twice. */
  datatype Broadcast = NoBroadcast | BroadcastWord(bank: int, word: int)

  ghost predicate IsBroadcast(cast: Broadcast, l: seq<int>, bank: BankMap) {
    match cast
    case NoBroadcast => forall w :: Count(l, w) <= 1
    case BroadcastWord(b, w) =>
      && bank(w) == b && Count(l, w) > 1
      && (forall v | Count(l, v) > 1 :: b < bank(v) || (b == bank(v) && w <= v))
  }

  /** Cycles bank `b` needs when only the broadcast word is shared. */
  ghost function LimitedLoad(l: seq<int>, bank: BankMap, b: int, cast: Broadcast): int {
    BankTotal(l, bank, b) - if cast.BroadcastWord? && cast.bank == b then Count(l, cast.word) - 1 else 0
  }

  ghost predicate IsMaxLimited(n: nat, l: seq<int>, bank: BankMap, cast: Broadcast) {
    && (forall b :: LimitedLoad(l, bank, b, cast) <= n)
    && (n > 0 ==> exists b :: LimitedLoad(l, bank, b, cast) == n)
  }

  ghost function SumCounts(l: seq<int>, ks: seq<int>): nat {
    if ks == [] then 0 else SumCounts(l, ks[..|ks| - 1]) + Count(l, ks[|ks| - 1])
  }

  ghost predicate Distinct(ks: seq<int>) {
    forall i, j | 0 <= i < j < |ks| :: ks[i] != ks[j]
  }

  lemma {:induction false} SumCountsAppend(l: seq<int>, w: int, ks: seq<int>)
    requires Distinct(ks)
    ensures SumCounts(l + [w], ks) == SumCounts(l, ks) + if w in ks then 1 else 0
  {
    if ks != [] {
      var n := |ks| - 1;
      SumCountsAppend(l, w, ks[..n]);
      CountAppend(l, w);
      assert w in ks <==> w in ks[..n] || w == ks[n];
      assert ks[n] !in ks[..n];
    }
  }

  lemma {:induction false} SumCountsZero(ks: seq<int>)
    ensures SumCounts([], ks) == 0
  {
    if ks != [] {
      SumCountsZero(ks[..|ks| - 1]);
    }
  }

  /** The accesses of a bank are the accesses of its words. */
  lemma {:induction false} BankTotalIsSum(l: seq<int>, bank: BankMap, b: int, ks: seq<int>)
    requires Distinct(ks)
    requires forall w | w in l :: w in ks <==> bank(w) == b
    ensures SumCounts(l, ks) == BankTotal(l, bank, b)
  {
    if l == [] {
      SumCountsZero(ks);
    } else {
      var rest, w := l[..|l| - 1], l[|l| - 1];
      BankTotalIsSum(rest, bank, b, ks);
      SumCountsAppend(rest, w, ks);
      assert rest + [w] == l && w in l;
    }
  }

  /** Every word of the list was hit, and one of them `Count` times. */
  lemma {:induction false} SumCountsBound(l: seq<int>, ks: seq<int>, w: int)
    requires forall k | k in ks :: Count(l, k) > 0
    ensures SumCounts(l, ks) >= |ks|
    ensures w in ks ==> SumCounts(l, ks) >= |ks| - 1 + Count(l, w)
  {
    if ks != [] {
      var n := |ks| - 1;
      assert forall k | k in ks[..n] :: k in ks;
      assert ks[n] in ks;
      SumCountsBound(l, ks[..n], w);
      assert w in ks <==> w in ks[..n] || w == ks[n];
    }
  }

  lemma {:induction false} BankTotalBound(l: seq<int>, bank: BankMap, b: int)
    ensures BankTotal(l, bank, b) <= |l|
  {
    if l != [] {
      BankTotalBound(l[..|l| - 1], bank, b);
    }
  }

  /** Limited broadcast never beats full broadcast, bank by bank. */
  lemma LimitedLoadAtLeastFull(l: seq<int>, bank: BankMap, b: int, cast: Broadcast, ks: seq<int>)
    requires cast.BroadcastWord? ==> bank(cast.word) == cast.bank && Count(l, cast.word) > 1
    requires IsAscending(ks, BankWords(l, bank, b))
    ensures SumCounts(l, ks) == BankTotal(l, bank, b)
    ensures |BankWords(l, bank, b)| <= LimitedLoad(l, bank, b, cast) <= |l|
  {
    BankTotalIsSum(l, bank, b, ks);
    BankTotalBound(l, bank, b);
    AscendingCard(ks, BankWords(l, bank, b));
    forall k | k in ks ensures Count(l, k) > 0 {
      CountPositive(l, k);
    }
    var w := if cast.BroadcastWord? then cast.word else 0;
    CountPositive(l, w);
    SumCountsBound(l, ks, w);
  }

  // ----- the loops of the limited-broadcast branch -----------------------------------------------------

  method FindInBank(counts: map<int, nat>) returns (found: bool, word: int)
    ensures found ==> word in counts && counts[word] > 1 && forall v | v in counts && counts[v] > 1 :: word <= v
    ensures !found ==> forall v | v in counts :: counts[v] <= 1
  {
    var words := Enumerate(counts.Keys);
    AscendingIn(words, counts.Keys);
    found, word := false, 0;
    for j := 0 to |words|
      invariant forall k | 0 <= k < j :: counts[words[k]] <= 1
    {
      if counts[words[j]] > 1 {
        forall v | v in counts && counts[v] > 1 ensures words[j] <= v {
          assert v in words;
        }
        return true, words[j];
      }
    }
    forall v | v in counts ensures counts[v] <= 1 {
      assert v in words;
    }
  }

  lemma HitIsCounted(accs: BankAccs, bank: BankMap, l: seq<int>, v: int)
    requires AccsOf(accs, l, bank) && Count(l, v) > 0
    ensures bank(v) in accs && v in accs[bank(v)] && accs[bank(v)][v] == Count(l, v)
  {
    CountPositive(l, v);
    assert AccsAt(accs, l, bank, bank(v));
    assert v in BankCounts(l, bank, bank(v));
  }

  method FindBroadcast(accs: BankAccs, ghost bank: BankMap, ghost l: seq<int>) returns (cast: Broadcast)
    requires AccsOf(accs, l, bank)
    ensures IsBroadcast(cast, l, bank)
  {
    var keys := Enumerate(accs.Keys);
    AscendingIn(keys, accs.Keys);
    for i := 0 to |keys|
      invariant forall v | Count(l, v) > 1 :: bank(v) !in keys[..i]
    {
      var found, word := FindInBank(accs[keys[i]]);
      assert AccsAt(accs, l, bank, keys[i]);
      if found {
        assert forall k | 0 <= k < i :: keys[..i][k] == keys[k] && keys[k] in keys[..i];
        forall v | Count(l, v) > 1 ensures keys[i] < bank(v) || (keys[i] == bank(v) && word <= v) {
          HitIsCounted(accs, bank, l, v);
          var k :| 0 <= k < |keys| && keys[k] == bank(v);
        }
        return BroadcastWord(keys[i], word);
      }
      forall v | Count(l, v) > 1 ensures bank(v) !in keys[..i + 1] {
        HitIsCounted(accs, bank, l, v);
        assert keys[..i + 1] == keys[..i] + [keys[i]];
      }
    }
    assert keys[..|keys|] == keys;
    NothingLeft(accs, bank, l, keys);
    return NoBroadcast;
  }

  lemma NothingLeft(accs: BankAccs, bank: BankMap, l: seq<int>, keys: seq<int>)
    requires AccsOf(accs, l, bank) && IsAscending(keys, accs.Keys)
    requires forall v | Count(l, v) > 1 :: bank(v) !in keys
    ensures forall v :: Count(l, v) <= 1
  {
    forall v ensures Count(l, v) <= 1 {
      if Count(l, v) > 0 {
        HitIsCounted(accs, bank, l, v);
        var b := bank(v);
        assert b in accs.Keys;
        assert b in keys;
      }
    }
  }

  method SumBank(counts: map<int, nat>, ghost l: seq<int>) returns (total: nat, ghost words: seq<int>)
    requires forall w | w in counts :: counts[w] == Count(l, w)
    ensures IsAscending(words, counts.Keys) && total == SumCounts(l, words)
  {
    var ws := Enumerate(counts.Keys);
    AscendingIn(ws, counts.Keys);
    words := ws;
    total := 0;
    for j := 0 to |ws|
      invariant total == SumCounts(l, ws[..j])
    {
      total := total + counts[ws[j]];
      assert ws[..j + 1][..j] == ws[..j];
    }
    assert ws[..|ws|] == ws;
  }

  /** Cycles of one bank: all its accesses, the broadcast word counted once. */
  method BankCycles(accs: BankAccs, b: int, cast: Broadcast, ghost bank: BankMap, ghost l: seq<int>) returns (n: nat)
    requires AccsOf(accs, l, bank) && b in accs && IsBroadcast(cast, l, bank)
    ensures n == LimitedLoad(l, bank, b, cast)
    ensures |BankWords(l, bank, b)| <= n <= |l|
  {
    assert AccsAt(accs, l, bank, b) && BankCounts(l, bank, b).Keys == BankWords(l, bank, b);
    ghost var words;
    n, words := SumBank(accs[b], l);
    LimitedLoadAtLeastFull(l, bank, b, cast, words);
    if cast.BroadcastWord? && cast.bank == b {
      HitIsCounted(accs, bank, l, cast.word);
      var hits := accs[b][cast.word];
      assert hits > 1 && n >= hits - 1;
      n := n - (hits - 1);
    }
  }

  method LimitedBroadcastCycles(accs: BankAccs, ghost bank: BankMap, ghost l: seq<int>)
    returns (n: nat, cast: Broadcast)
    requires AccsOf(accs, l, bank)
    ensures IsBroadcast(cast, l, bank) && IsMaxLimited(n, l, bank, cast)
  {
    cast := FindBroadcast(accs, bank, l);
    var keys := Enumerate(accs.Keys);
    AscendingIn(keys, accs.Keys);
    n := 0;
    for i := 0 to |keys|
      invariant forall k | 0 <= k < i :: LimitedLoad(l, bank, keys[k], cast) <= n
      invariant n > 0 ==> exists b :: LimitedLoad(l, bank, b, cast) == n
    {
      var load := BankCycles(accs, keys[i], cast, bank, l);
      if load > n {
        n := load;
      }
    }
    forall b ensures LimitedLoad(l, bank, b, cast) <= n {
      if b in accs.Keys {
        assert b in keys;
      } else {
        UnusedBank(accs, bank, l, b);
      }
    }
  }

  lemma {:induction false} UnusedBank(accs: BankAccs, bank: BankMap, l: seq<int>, b: int)
    requires AccsOf(accs, l, bank) && b !in accs
    ensures BankTotal(l, bank, b) == 0
  {
    assert AccsAt(accs, l, bank, b) && BankCounts(l, bank, b).Keys == BankWords(l, bank, b);
    forall w | w in l ensures bank(w) != b {
      assert w in BankWords(l, bank, bank(w));
    }
    NoBankTotal(l, bank, b);
  }

  lemma {:induction false} NoBankTotal(l: seq<int>, bank: BankMap, b: int)
    requires forall w | w in l :: bank(w) != b
    ensures BankTotal(l, bank, b) == 0
  {
    if l != [] {
      var n := |l| - 1;
      var last: int := l[n];
      assert last in l && bank(last) != b;
      assert forall w | w in l[..n] :: w in l;
      NoBankTotal(l[..n], bank, b);
    }
  }

  // ----- bounds -----------------------------------------------------------------------------------------

  /** Limited broadcast takes at least as long as full broadcast, and at most one cycle per access. */
  lemma LimitedAtLeastFull(l: seq<int>, bank: BankMap, full: nat, limited: nat, cast: Broadcast)
    requires IsBroadcast(cast, l, bank) && IsMaxLoad(full, l, bank) && IsMaxLimited(limited, l, bank, cast)
    ensures full <= limited <= |l|
    ensures l != [] ==> full >= 1
  {
    if full > 0 {
      var b :| |BankWords(l, bank, b)| == full;
      var ks := SomeEnumeration(BankWords(l, bank, b));
      LimitedLoadAtLeastFull(l, bank, b, cast, ks);
      assert LimitedLoad(l, bank, b, cast) <= limited;
    }
    if limited > 0 {
      var b :| LimitedLoad(l, bank, b, cast) == limited;
      var ks := SomeEnumeration(BankWords(l, bank, b));
      LimitedLoadAtLeastFull(l, bank, b, cast, ks);
    }
    if l != [] {
      var w := l[0];
      assert w in BankWords(l, bank, bank(w));
      assert |BankWords(l, bank, bank(w))| <= full;
    }
  }

  lemma {:induction false} SomeEnumeration(keys: set<int>) returns (s: seq<int>)
    ensures IsAscending(s, keys)
    decreases |keys|
  {
    if keys == {} {
      s := [];
    } else {
      var k := Least(keys);
      var rest := SomeEnumeration(keys - {k});
      s := [k] + rest;
      AscendingIn(rest, keys - {k});
    }
  }

  // ----- the whole warp --------------------------------------------------------------------------------

  ghost predicate IsCycleCount(n: nat, l: seq<int>, bank: BankMap, limited: bool) {
    if limited then exists cast :: IsBroadcast(cast, l, bank) && IsMaxLimited(n, l, bank, cast)
    else IsMaxLoad(n, l, bank)
  }

  lemma CycleCountBounds(n: nat, l: seq<int>, bank: BankMap, limited: bool)
    requires IsCycleCount(n, l, bank, limited)
    ensures n <= |l| && (n > 0 <==> l != [])
  {
    if limited {
      var cast :| IsBroadcast(cast, l, bank) && IsMaxLimited(n, l, bank, cast);
      if n > 0 {
        var b :| LimitedLoad(l, bank, b, cast) == n;
        var ks := SomeEnumeration(BankWords(l, bank, b));
        LimitedLoadAtLeastFull(l, bank, b, cast, ks);
      }
      if l != [] {
        var w: int := l[0];
        var ks := SomeEnumeration(BankWords(l, bank, bank(w)));
        LimitedLoadAtLeastFull(l, bank, bank(w), cast, ks);
        assert w in BankWords(l, bank, bank(w));
        assert LimitedLoad(l, bank, bank(w), cast) <= n;
      }
    } else {
      if n > 0 {
        var b :| |BankWords(l, bank, b)| == n;
        SubsetCard(BankWords(l, bank, b), Words(l));
        WordsCard(l);
      }
      if l != [] {
        var w: int := l[0];
        assert w in BankWords(l, bank, bank(w));
        assert |BankWords(l, bank, bank(w))| <= n;
      }
    }
  }

  lemma {:induction false} WordsCard(l: seq<int>)
    ensures |Words(l)| <= |l|
  {
    if l != [] {
      WordsCard(l[..|l| - 1]);
    }
  }

  lemma {:induction false} ActiveWordsLength(addrs: seq<nat>, active: set<nat>, lo: nat, hi: nat)
    requires lo <= hi <= |addrs|
    ensures |ActiveWords(addrs, active, lo, hi)| <= hi - lo
    ensures ActiveWords(addrs, active, lo, hi) != [] <==> exists t :: lo <= t < hi && t in active
  {
    if lo < hi {
      ActiveWordsLength(addrs, active, lo, hi - 1);
    }
  }

  // ----- cycles by addresses ---------------------------------------------------------------------------

  /** The words of bank `b` that the active threads `lo` to `hi - 1` access. */
  ghost function WordsInBank(addrs: seq<nat>, active: set<nat>, lo: nat, hi: nat, banks: nat, b: int): set<int>
    requires banks > 0 && hi <= |addrs|
  {
    set t: nat | lo <= t < hi && t in active && addrs[t] / 4 % banks == b :: addrs[t] / 4
  }

  ghost function ThreadsInBank(addrs: seq<nat>, active: set<nat>, lo: nat, hi: nat, banks: nat, b: int): set<nat>
    requires banks > 0 && hi <= |addrs|
  {
    set t: nat | lo <= t < hi && t in active && addrs[t] / 4 % banks == b
  }

  ghost function ThreadsOnWord(addrs: seq<nat>, active: set<nat>, lo: nat, hi: nat, w: nat): set<nat>
    requires hi <= |addrs|
  {
    set t: nat | lo <= t < hi && t in active && addrs[t] / 4 == w
  }

  /** `n` is the largest number of different words in one bank. */
  ghost predicate IsMostWords(n: nat, addrs: seq<nat>, active: set<nat>, lo: nat, hi: nat, banks: nat)
    requires banks > 0 && hi <= |addrs|
  {
    && (forall b | 0 <= b < banks :: |WordsInBank(addrs, active, lo, hi, banks, b)| <= n)
    && (n > 0 ==> exists b :: 0 <= b < banks && |WordsInBank(addrs, active, lo, hi, banks, b)| == n)
  }

  /** The accesses to bank `b`, `saved` fewer for the bank of word `w`. */
  ghost function AccessesInBank(
    addrs: seq<nat>, active: set<nat>, lo: nat, hi: nat, banks: nat, w: nat, saved: int, b: int): int
    requires banks > 0 && hi <= |addrs|
  {
    |ThreadsInBank(addrs, active, lo, hi, banks, b)| - if b == w % banks then saved else 0
  }

  /** `n` is the largest number of accesses to one bank. */
  ghost predicate IsMostAccesses(
    n: nat, addrs: seq<nat>, active: set<nat>, lo: nat, hi: nat, banks: nat, w: nat, saved: int)
    requires banks > 0 && hi <= |addrs|
  {
    && (forall b | 0 <= b < banks :: AccessesInBank(addrs, active, lo, hi, banks, w, saved, b) <= n)
    && (n > 0 ==> exists b :: 0 <= b < banks && AccessesInBank(addrs, active, lo, hi, banks, w, saved, b) == n)
  }

  /** Several threads access `w`: the lowest such word of the lowest such bank. */
  ghost predicate IsFirstShared(addrs: seq<nat>, active: set<nat>, lo: nat, hi: nat, banks: nat, w: nat)
    requires banks > 0 && hi <= |addrs|
  {
    && |ThreadsOnWord(addrs, active, lo, hi, w)| > 1
    && forall v: nat | |ThreadsOnWord(addrs, active, lo, hi, v)| > 1 ::
      w % banks < v % banks || (w % banks == v % banks && w <= v)
  }

  /** With one word broadcast, every other access takes its own cycle of its bank. */
  ghost predicate IsMostLimited(n: nat, addrs: seq<nat>, active: set<nat>, lo: nat, hi: nat, banks: nat)
    requires banks > 0 && hi <= |addrs|
  {
    if forall v: nat :: |ThreadsOnWord(addrs, active, lo, hi, v)| <= 1 then
      IsMostAccesses(n, addrs, active, lo, hi, banks, 0, 0)
    else
      exists w: nat :: IsFirstShared(addrs, active, lo, hi, banks, w) &&
        IsMostAccesses(n, addrs, active, lo, hi, banks, w, |ThreadsOnWord(addrs, active, lo, hi, w)| - 1)
  }

  ghost predicate IsPartCount(
    n: nat, addrs: seq<nat>, active: set<nat>, lo: nat, hi: nat, banks: nat, limited: bool)
    requires banks > 0 && hi <= |addrs|
  {
    if limited then IsMostLimited(n, addrs, active, lo, hi, banks) else IsMostWords(n, addrs, active, lo, hi, banks)
  }

  lemma WordIsFourfold(x: nat)
    ensures Word(x) == 4 * (x / 4)
  {
  }

  lemma BankOfFourfold(w: nat, banks: nat)
    requires banks > 0
    ensures BankOf(banks)(4 * w) == w % banks
  {
  }

  ghost predicate Accesses(addrs: seq<nat>, active: set<nat>, lo: nat, hi: nat, t: nat, w: int)
    requires hi <= |addrs|
  {
    lo <= t < hi && t in active && 4 * (addrs[t] / 4) == w
  }

  ghost predicate SomeAccesses(addrs: seq<nat>, active: set<nat>, lo: nat, hi: nat, w: int)
    requires hi <= |addrs|
  {
    exists t: nat :: Accesses(addrs, active, lo, hi, t, w)
  }

  lemma OneMoreAccesses(addrs: seq<nat>, active: set<nat>, lo: nat, hi: nat, w: int)
    requires lo < hi <= |addrs|
    ensures SomeAccesses(addrs, active, lo, hi, w) <==>
      SomeAccesses(addrs, active, lo, hi - 1, w) || (hi - 1 in active && Word(addrs[hi - 1]) == w)
  {
    var h := hi - 1;
    WordIsFourfold(addrs[h]);
    if t: nat :| Accesses(addrs, active, lo, hi, t, w) {
      assert t < h ==> Accesses(addrs, active, lo, h, t, w);
    }
    if t: nat :| Accesses(addrs, active, lo, h, t, w) {
      assert Accesses(addrs, active, lo, hi, t, w);
    }
    assert Accesses(addrs, active, lo, hi, h, w) <==> h in active && Word(addrs[h]) == w;
  }

  /** The words of `ActiveWords` are those the threads access. */
  lemma {:induction false} WordAccessed(addrs: seq<nat>, active: set<nat>, lo: nat, hi: nat, w: int)
    requires hi <= |addrs|
    ensures w in ActiveWords(addrs, active, lo, hi) <==> SomeAccesses(addrs, active, lo, hi, w)
    decreases hi
  {
    if hi > lo {
      WordAccessed(addrs, active, lo, hi - 1, w);
      OneMoreAccesses(addrs, active, lo, hi, w);
    }
  }

  lemma {:induction false} FourfoldCard(ws: set<int>, r: int)
    ensures |set w | w in ws :: 4 * w + r| == |ws|
    decreases |ws|
  {
    var fs := set w | w in ws :: 4 * w + r;
    if ws != {} {
      var k := Pick(ws);
      var rest := ws - {k};
      FourfoldCard(rest, r);
      var others := set w | w in rest :: 4 * w + r;
      assert fs == others + {4 * k + r} by {
        forall f | f in fs ensures f in others + {4 * k + r} {
          var w :| w in ws && 4 * w + r == f;
          assert w == k || w in rest;
        }
      }
      assert 4 * k + r !in others;
    } else {
      assert fs == {};
    }
  }

  lemma WordOfBank(addrs: seq<nat>, active: set<nat>, lo: nat, hi: nat, banks: nat, b: int, w: int)
    requires banks > 0 && hi <= |addrs|
    ensures w in BankWords(ActiveWords(addrs, active, lo, hi), BankOf(banks), b) <==>
      exists k :: k in WordsInBank(addrs, active, lo, hi, banks, b) && 4 * k + 0 == w
  {
    WordAccessed(addrs, active, lo, hi, w);
    if w in BankWords(ActiveWords(addrs, active, lo, hi), BankOf(banks), b) {
      var t: nat :| Accesses(addrs, active, lo, hi, t, w);
      BankOfFourfold(addrs[t] / 4, banks);
      assert addrs[t] / 4 in WordsInBank(addrs, active, lo, hi, banks, b);
    }
    if k :| k in WordsInBank(addrs, active, lo, hi, banks, b) && 4 * k + 0 == w {
      BankOfFourfold(k, banks);
      var t: nat :| lo <= t < hi && t in active && addrs[t] / 4 == k;
      assert Accesses(addrs, active, lo, hi, t, w);
    }
  }

  lemma WordsOfBank(addrs: seq<nat>, active: set<nat>, lo: nat, hi: nat, banks: nat, b: int)
    requires banks > 0 && hi <= |addrs|
    ensures |BankWords(ActiveWords(addrs, active, lo, hi), BankOf(banks), b)| ==
      |WordsInBank(addrs, active, lo, hi, banks, b)|
  {
    var ks := WordsInBank(addrs, active, lo, hi, banks, b);
    var fs := set k | k in ks :: 4 * k + 0;
    var ws := BankWords(ActiveWords(addrs, active, lo, hi), BankOf(banks), b);
    forall w ensures w in ws <==> w in fs {
      WordOfBank(addrs, active, lo, hi, banks, b, w);
    }
    assert ws == fs;
    FourfoldCard(ks, 0);
  }

  lemma NoSuchWords(addrs: seq<nat>, active: set<nat>, lo: nat, hi: nat, banks: nat, b: int)
    requires banks > 0 && hi <= |addrs| && (b < 0 || b >= banks)
    ensures WordsInBank(addrs, active, lo, hi, banks, b) == {}
  {
  }

  lemma OneMoreOnWord(addrs: seq<nat>, active: set<nat>, lo: nat, t: nat, w: nat)
    requires lo <= t < |addrs|
    ensures |ThreadsOnWord(addrs, active, lo, t + 1, w)| ==
      |ThreadsOnWord(addrs, active, lo, t, w)| + if t in active && addrs[t] / 4 == w then 1 else 0
  {
    var before, after := ThreadsOnWord(addrs, active, lo, t, w), ThreadsOnWord(addrs, active, lo, t + 1, w);
    assert after == if t in active && addrs[t] / 4 == w then before + {t} else before;
  }

  /** Accesses to a word are the threads on it. */
  lemma {:induction false} CountIsThreads(addrs: seq<nat>, active: set<nat>, lo: nat, hi: nat, w: nat)
    requires hi <= |addrs|
    ensures Count(ActiveWords(addrs, active, lo, hi), 4 * w) == |ThreadsOnWord(addrs, active, lo, hi, w)|
    decreases hi
  {
    if hi > lo {
      var t := hi - 1;
      CountIsThreads(addrs, active, lo, t, w);
      OneMoreOnWord(addrs, active, lo, t, w);
      WordIsFourfold(addrs[t]);
      NextActiveWord(addrs, active, lo, t);
      CountAppend(ActiveWords(addrs, active, lo, t), Word(addrs[t]));
    } else {
      assert ThreadsOnWord(addrs, active, lo, hi, w) == {};
    }
  }

  lemma OneMoreInBank(addrs: seq<nat>, active: set<nat>, lo: nat, t: nat, banks: nat, b: int)
    requires banks > 0 && lo <= t < |addrs|
    ensures |ThreadsInBank(addrs, active, lo, t + 1, banks, b)| ==
      |ThreadsInBank(addrs, active, lo, t, banks, b)| + if t in active && addrs[t] / 4 % banks == b then 1 else 0
  {
    var before := ThreadsInBank(addrs, active, lo, t, banks, b);
    var after := ThreadsInBank(addrs, active, lo, t + 1, banks, b);
    assert after == if t in active && addrs[t] / 4 % banks == b then before + {t} else before;
  }

  lemma TotalAppend(l: seq<int>, w: int, bank: BankMap, b: int)
    ensures BankTotal(l + [w], bank, b) == BankTotal(l, bank, b) + if bank(w) == b then 1 else 0
  {
    assert (l + [w])[..|l|] == l;
  }

  /** Accesses to a bank are the threads in it. */
  lemma {:induction false} TotalIsThreads(addrs: seq<nat>, active: set<nat>, lo: nat, hi: nat, banks: nat, b: int)
    requires banks > 0 && hi <= |addrs|
    ensures BankTotal(ActiveWords(addrs, active, lo, hi), BankOf(banks), b) ==
      |ThreadsInBank(addrs, active, lo, hi, banks, b)|
    decreases hi
  {
    if hi > lo {
      var t := hi - 1;
      TotalIsThreads(addrs, active, lo, t, banks, b);
      OneMoreInBank(addrs, active, lo, t, banks, b);
      WordIsFourfold(addrs[t]);
      BankOfFourfold(addrs[t] / 4, banks);
      NextActiveWord(addrs, active, lo, t);
      TotalAppend(ActiveWords(addrs, active, lo, t), Word(addrs[t]), BankOf(banks), b);
    } else {
      assert ThreadsInBank(addrs, active, lo, hi, banks, b) == {};
    }
  }

  lemma FullByAddresses(n: nat, addrs: seq<nat>, active: set<nat>, lo: nat, hi: nat, banks: nat)
    requires banks > 0 && hi <= |addrs| && IsMaxLoad(n, ActiveWords(addrs, active, lo, hi), BankOf(banks))
    ensures IsMostWords(n, addrs, active, lo, hi, banks)
  {
    var l := ActiveWords(addrs, active, lo, hi);
    forall b ensures |BankWords(l, BankOf(banks), b)| == |WordsInBank(addrs, active, lo, hi, banks, b)| <= n {
      WordsOfBank(addrs, active, lo, hi, banks, b);
    }
    if n > 0 {
      var b :| |BankWords(l, BankOf(banks), b)| == n;
      WordsOfBank(addrs, active, lo, hi, banks, b);
      if b < 0 || b >= banks {
        NoSuchWords(addrs, active, lo, hi, banks, b);
        assert false;
      }
    }
  }

  /** No bank outside `0` to `banks - 1` has accesses. */
  lemma NoSuchBank(addrs: seq<nat>, active: set<nat>, lo: nat, hi: nat, banks: nat, b: int)
    requires banks > 0 && hi <= |addrs| && (b < 0 || b >= banks)
    ensures ThreadsInBank(addrs, active, lo, hi, banks, b) == {}
  {
  }

  /** The load of a bank by threads; word `w` is the one broadcast, if any. */
  lemma LoadByThreads(
    addrs: seq<nat>, active: set<nat>, lo: nat, hi: nat, banks: nat, cast: Broadcast, w: nat, saved: int, b: int)
    requires banks > 0 && hi <= |addrs|
    requires cast.BroadcastWord? ==> cast.bank == w % banks && cast.word == 4 * w
    requires saved == if cast.BroadcastWord? then |ThreadsOnWord(addrs, active, lo, hi, w)| - 1 else 0
    ensures LimitedLoad(ActiveWords(addrs, active, lo, hi), BankOf(banks), b, cast) ==
      AccessesInBank(addrs, active, lo, hi, banks, w, saved, b)
  {
    CountIsThreads(addrs, active, lo, hi, w);
    TotalIsThreads(addrs, active, lo, hi, banks, b);
  }

  lemma MostAccesses(
    n: nat, addrs: seq<nat>, active: set<nat>, lo: nat, hi: nat, banks: nat, cast: Broadcast, w: nat, saved: int)
    requires banks > 0 && hi <= |addrs|
    requires cast.BroadcastWord? ==> cast.bank == w % banks && cast.word == 4 * w
    requires saved == if cast.BroadcastWord? then |ThreadsOnWord(addrs, active, lo, hi, w)| - 1 else 0
    requires IsMaxLimited(n, ActiveWords(addrs, active, lo, hi), BankOf(banks), cast)
    ensures IsMostAccesses(n, addrs, active, lo, hi, banks, w, saved)
  {
    var l := ActiveWords(addrs, active, lo, hi);
    forall b
      ensures AccessesInBank(addrs, active, lo, hi, banks, w, saved, b) == LimitedLoad(l, BankOf(banks), b, cast) <= n
    {
      LoadByThreads(addrs, active, lo, hi, banks, cast, w, saved, b);
    }
    if n > 0 {
      var b :| LimitedLoad(l, BankOf(banks), b, cast) == n;
      assert AccessesInBank(addrs, active, lo, hi, banks, w, saved, b) == n;
      if b < 0 || b >= banks {
        NoSuchBank(addrs, active, lo, hi, banks, b);
        assert false;
      }
    }
  }

  /** The word broadcast is the first shared one. */
  lemma FirstShared(addrs: seq<nat>, active: set<nat>, lo: nat, hi: nat, banks: nat, cast: Broadcast)
    returns (w: nat)
    requires banks > 0 && hi <= |addrs| && cast.BroadcastWord?
    requires IsBroadcast(cast, ActiveWords(addrs, active, lo, hi), BankOf(banks))
    ensures cast.bank == w % banks && cast.word == 4 * w
    ensures IsFirstShared(addrs, active, lo, hi, banks, w)
  {
    var l := ActiveWords(addrs, active, lo, hi);
    CountPositive(l, cast.word);
    WordAccessed(addrs, active, lo, hi, cast.word);
    var t: nat :| Accesses(addrs, active, lo, hi, t, cast.word);
    w := addrs[t] / 4;
    BankOfFourfold(w, banks);
    CountIsThreads(addrs, active, lo, hi, w);
    forall v: nat | |ThreadsOnWord(addrs, active, lo, hi, v)| > 1
      ensures w % banks < v % banks || (w % banks == v % banks && w <= v)
    {
      CountIsThreads(addrs, active, lo, hi, v);
      BankOfFourfold(v, banks);
      assert Count(l, 4 * v) > 1;
    }
  }

  lemma LimitedByAddresses(
    n: nat, addrs: seq<nat>, active: set<nat>, lo: nat, hi: nat, banks: nat, cast: Broadcast)
    requires banks > 0 && hi <= |addrs| && IsBroadcast(cast, ActiveWords(addrs, active, lo, hi), BankOf(banks))
    requires IsMaxLimited(n, ActiveWords(addrs, active, lo, hi), BankOf(banks), cast)
    ensures IsMostLimited(n, addrs, active, lo, hi, banks)
  {
    if cast.BroadcastWord? {
      var w := FirstShared(addrs, active, lo, hi, banks, cast);
      MostAccesses(n, addrs, active, lo, hi, banks, cast, w, |ThreadsOnWord(addrs, active, lo, hi, w)| - 1);
    } else {
      forall v: nat ensures |ThreadsOnWord(addrs, active, lo, hi, v)| <= 1 {
        CountIsThreads(addrs, active, lo, hi, v);
      }
      MostAccesses(n, addrs, active, lo, hi, banks, cast, 0, 0);
    }
  }

  /** The cycles of a part in terms of addresses and the number of banks. */
  lemma CyclesByAddresses(n: nat, addrs: seq<nat>, active: set<nat>, lo: nat, hi: nat, banks: nat, limited: bool)
    requires banks > 0 && hi <= |addrs|
    requires IsCycleCount(n, ActiveWords(addrs, active, lo, hi), BankOf(banks), limited)
    ensures IsPartCount(n, addrs, active, lo, hi, banks, limited)
  {
    var l := ActiveWords(addrs, active, lo, hi);
    if limited {
      var cast :| IsBroadcast(cast, l, BankOf(banks)) && IsMaxLimited(n, l, BankOf(banks), cast);
      LimitedByAddresses(n, addrs, active, lo, hi, banks, cast);
    } else {
      FullByAddresses(n, addrs, active, lo, hi, banks);
    }
  }

  ghost predicate SomeActive(active: set<nat>, lo: nat, hi: nat) {
    exists t :: lo <= t < hi && t in active
  }

  /** The active threads access words among the `count` ones from `first` on. */
  ghost predicate WordsWithin(addrs: seq<nat>, active: set<nat>, first: nat, count: nat) {
    forall t | 0 <= t < |addrs| && t in active :: first <= addrs[t] / 4 < first + count
  }

  /** The active threads access `first` plus multiples of `stride`. */
  ghost predicate OnStride(addrs: seq<nat>, active: set<nat>, first: nat, stride: nat)
    requires stride > 0
  {
    forall t | 0 <= t < |addrs| && t in active :: first <= addrs[t] && (addrs[t] - first) % stride == 0
  }

  ghost function AddressesUsed(addrs: seq<nat>, active: set<nat>): set<int> {
    set t: nat | t < |addrs| && t in active :: addrs[t]
  }

  lemma SameBankSameWord(v: nat, w: nat, first: nat, banks: nat)
    requires banks > 0 && first <= v < first + banks && first <= w < first + banks && v % banks == w % banks
    ensures v == w
  {
    var d := v / banks - w / banks;
    assert v - w == banks * d;
    assert d >= 1 ==> banks * d >= banks;
    assert d <= -1 ==> banks * d + banks <= 0;
  }

  /** Consecutive words, no more than there are banks, never conflict. */
  lemma ConsecutiveTakeOne(n: nat, addrs: seq<nat>, active: set<nat>, first: nat, banks: nat)
    requires banks > 0 && IsMostWords(n, addrs, active, 0, |addrs|, banks)
    requires WordsWithin(addrs, active, first, banks) && SomeActive(active, 0, |addrs|)
    ensures n == 1
  {
    var t :| 0 <= t < |addrs| && t in active;
    var w := addrs[t] / 4;
    var own := WordsInBank(addrs, active, 0, |addrs|, banks, w % banks);
    assert w in own;
    assert |own| <= n;
    var b :| 0 <= b < banks && |WordsInBank(addrs, active, 0, |addrs|, banks, b)| == n;
    var ws := WordsInBank(addrs, active, 0, |addrs|, banks, b);
    var v := Pick(ws);
    forall u | u in ws ensures u == v {
      SameBankSameWord(u, v, first, banks);
    }
    assert ws == {v};
  }

  lemma StrideBank(x: nat, first: nat, banks: nat)
    requires banks > 0 && first <= x && (x - first) % (4 * banks) == 0
    ensures x % 4 == first % 4 && x / 4 % banks == first / 4 % banks
  {
    var j := (x - first) / (4 * banks);
    assert x == first + 4 * (banks * j) by {
      assert x - first == 4 * banks * j;
    }
    assert x / 4 == first / 4 + banks * j;
    AddMultiple(first / 4, j, banks);
  }

  lemma AddMultiple(w: nat, j: nat, banks: nat)
    requires banks > 0
    ensures (w + banks * j) % banks == w % banks
  {
    var r, q, s := w % banks, w / banks, (w + banks * j) / banks;
    var d := q + j - s;
    assert (w + banks * j) % banks == r + banks * d;
    assert d >= 1 ==> banks * d >= banks;
    assert d <= -1 ==> banks * d + banks <= 0;
  }

  /** Addresses with one offset in their word are as many as their words. */
  lemma StrideWords(addrs: seq<nat>, active: set<nat>, ws: set<int>, r: nat)
    requires forall t: nat | t < |addrs| && t in active :: addrs[t] % 4 == r && addrs[t] / 4 in ws
    requires forall w | w in ws :: exists t: nat :: t < |addrs| && t in active && addrs[t] / 4 == w
    ensures |AddressesUsed(addrs, active)| == |ws|
  {
    var xs := set w | w in ws :: 4 * w + r;
    var used := AddressesUsed(addrs, active);
    forall x: int ensures x in xs <==> x in used {
      if x in xs {
        var w :| w in ws && 4 * w + r == x;
        var t: nat :| t < |addrs| && t in active && addrs[t] / 4 == w;
        assert addrs[t] == x;
      }
      if x in used {
        var t: nat :| t < |addrs| && t in active && addrs[t] == x;
        assert 4 * (addrs[t] / 4) + r == x;
      }
    }
    assert xs == used;
    FourfoldCard(ws, r);
  }

  /** Different words of one bank take one cycle each. */
  lemma StrideTakesEach(n: nat, addrs: seq<nat>, active: set<nat>, first: nat, banks: nat)
    requires banks > 0 && IsMostWords(n, addrs, active, 0, |addrs|, banks)
    requires OnStride(addrs, active, first, 4 * banks)
    ensures n == |AddressesUsed(addrs, active)|
  {
    var b, xs := first / 4 % banks, AddressesUsed(addrs, active);
    forall t: nat | t < |addrs| && t in active ensures addrs[t] % 4 == first % 4 && addrs[t] / 4 % banks == b {
      StrideBank(addrs[t], first, banks);
    }
    var ws := WordsInBank(addrs, active, 0, |addrs|, banks, b);
    StrideWords(addrs, active, ws, first % 4);
    assert |ws| <= n;
    if n > 0 {
      var c :| 0 <= c < banks && |WordsInBank(addrs, active, 0, |addrs|, banks, c)| == n;
      var some := Pick(WordsInBank(addrs, active, 0, |addrs|, banks, c));
      assert c == b;
    }
  }

  method PartCycles(addrs: seq<nat>, active: set<nat>, lo: nat, hi: nat, banks: nat, limited: bool) returns (n: nat)
    requires banks > 0 && lo <= hi <= |addrs|
    ensures IsCycleCount(n, ActiveWords(addrs, active, lo, hi), BankOf(banks), limited)
    ensures n <= hi - lo && (n > 0 <==> exists t :: lo <= t < hi && t in active)
  {
    ghost var l := ActiveWords(addrs, active, lo, hi);
    var accs := CountAccesses(addrs, active, lo, hi, banks);
    if limited {
      var cast;
      n, cast := LimitedBroadcastCycles(accs, BankOf(banks), l);
    } else {
      n := FullBroadcastCycles(accs, BankOf(banks), l);
    }
    CycleCountBounds(n, l, BankOf(banks), limited);
    ActiveWordsLength(addrs, active, lo, hi);
  }

  ghost function Sum(ns: seq<nat>): nat {
    if ns == [] then 0 else Sum(ns[..|ns| - 1]) + ns[|ns| - 1]
  }

  /** `counts` are the cycle counts of the first parts. */
  ghost predicate PartCounts(counts: seq<nat>, addrs: seq<nat>, active: set<nat>, size: nat, banks: nat, limited: bool)
    requires banks > 0 && Start(|counts|, size) <= |addrs|
  {
    counts == [] ||
    var p := |counts| - 1;
    && PartCounts(counts[..p], addrs, active, size, banks, limited)
    && IsCycleCount(counts[p], ActiveWords(addrs, active, Start(p, size), Start(p + 1, size)), BankOf(banks), limited)
  }

  /** One round of the subwarp loop. */
  method AddPart(
    addrs: seq<nat>, active: set<nat>, p: nat, lo: nat, size: nat, banks: nat, limited: bool,
    total: nat, ghost before: seq<nat>)
    returns (total': nat, ghost counts: seq<nat>)
    requires banks > 0 && lo == Start(p, size) && lo + size <= |addrs| && |before| == p && total == Sum(before) <= lo
    requires PartCounts(before, addrs, active, size, banks, limited)
    requires total > 0 <==> SomeActive(active, 0, lo)
    ensures |counts| == p + 1 && lo + size == Start(p + 1, size) && total' == Sum(counts) <= lo + size
    ensures PartCounts(counts, addrs, active, size, banks, limited)
    ensures total' > 0 <==> SomeActive(active, 0, lo + size)
  {
    var n := PartCycles(addrs, active, lo, lo + size, banks, limited);
    counts := before + [n];
    assert counts[..p] == before;
    total' := total + n;
  }

  method CyclesOfParts(addrs: seq<nat>, active: set<nat>, parts: nat, size: nat, banks: nat, limited: bool)
    returns (total: nat, ghost counts: seq<nat>)
    requires banks > 0 && Start(parts, size) <= |addrs|
    ensures |counts| == parts && total == Sum(counts) <= Start(parts, size)
    ensures PartCounts(counts, addrs, active, size, banks, limited)
    ensures total > 0 <==> SomeActive(active, 0, Start(parts, size))
  {
    var lo := 0;
    total, counts := 0, [];
    for p := 0 to parts
      invariant |counts| == p && lo == Start(p, size) <= |addrs| && total == Sum(counts) <= lo
      invariant PartCounts(counts, addrs, active, size, banks, limited)
      invariant total > 0 <==> SomeActive(active, 0, lo)
    {
      StartMonotone(p + 1, parts, size);
      total, counts := AddPart(addrs, active, p, lo, size, banks, limited, total, counts);
      lo := lo + size;
    }
  }

  /** Totals of consecutive parts add up. */
  lemma {:induction false} SumAdds(a: seq<nat>, b: seq<nat>)
    ensures Sum(a + b) == Sum(a) + Sum(b)
    ensures |a| == 1 ==> Sum(a) == a[0]
  {
    if b == [] {
      assert a + b == a;
    } else {
      var n := |b| - 1;
      SumAdds(a, b[..n]);
      assert (a + b)[..|a + b| - 1] == a + b[..n];
    }
  }

  ghost predicate CountOfPart(
    n: nat, addrs: seq<nat>, active: set<nat>, lo: nat, hi: nat, banks: nat, limited: bool)
    requires banks > 0
  {
    hi <= |addrs| && IsPartCount(n, addrs, active, lo, hi, banks, limited)
  }

  /** What each part of a warp cut into parts of `size` threads takes. */
  ghost predicate PartsCounted(
    counts: seq<nat>, addrs: seq<nat>, active: set<nat>, size: nat, banks: nat, limited: bool)
    requires banks > 0
  {
    forall p: nat, lo: nat, hi: nat | p < |counts| && lo == p * size && hi == lo + size ::
      CountOfPart(counts[p], addrs, active, lo, hi, banks, limited)
  }

  lemma {:induction false} CountAt(
    counts: seq<nat>, addrs: seq<nat>, active: set<nat>, p: nat, size: nat, banks: nat, limited: bool)
    requires banks > 0 && Start(|counts|, size) <= |addrs| && p < |counts|
    requires PartCounts(counts, addrs, active, size, banks, limited)
    ensures CountOfPart(counts[p], addrs, active, Start(p, size), Start(p + 1, size), banks, limited)
  {
    StartMonotone(p + 1, |counts|, size);
    var last := |counts| - 1;
    if p < last {
      StartMonotone(last, |counts|, size);
      CountAt(counts[..last], addrs, active, p, size, banks, limited);
    } else {
      CyclesByAddresses(counts[p], addrs, active, Start(p, size), Start(p + 1, size), banks, limited);
    }
  }

  lemma AllCounted(counts: seq<nat>, addrs: seq<nat>, active: set<nat>, size: nat, banks: nat, limited: bool)
    requires banks > 0 && Start(|counts|, size) <= |addrs|
    requires PartCounts(counts, addrs, active, size, banks, limited)
    ensures PartsCounted(counts, addrs, active, size, banks, limited)
  {
    forall p: nat, lo: nat, hi: nat | p < |counts| && lo == p * size && hi == lo + size
      ensures CountOfPart(counts[p], addrs, active, lo, hi, banks, limited)
    {
      StartIsProduct(p, size);
      CountAt(counts, addrs, active, p, size, banks, limited);
    }
  }

  /** A warp in one part takes the cycles of that part. */
  lemma OnePart(total: nat, counts: seq<nat>, addrs: seq<nat>, active: set<nat>, banks: nat)
    requires banks > 0 && |counts| == 1 && total == Sum(counts)
    requires PartsCounted(counts, addrs, active, |addrs|, banks, false)
    ensures IsMostWords(total, addrs, active, 0, |addrs|, banks)
  {
    SumAdds(counts, []);
    var p, lo := 0, 0;
    assert lo == p * |addrs|;
    assert CountOfPart(counts[p], addrs, active, lo, |addrs|, banks, false);
  }

  /** With full broadcast and one part: one cycle where the words used are among as many
      consecutive ones as there are banks, and one cycle for each address where they are all in one
      bank. */
  ghost predicate TakesLeast(total: nat, addrs: seq<nat>, active: set<nat>, banks: nat)
    requires banks > 0
  {
    && (forall first: nat | WordsWithin(addrs, active, first, banks) && SomeActive(active, 0, |addrs|) :: total == 1)
    && forall first: nat | OnStride(addrs, active, first, 4 * banks) :: total == |AddressesUsed(addrs, active)|
  }

  lemma OnePartTakesLeast(total: nat, addrs: seq<nat>, active: set<nat>, banks: nat)
    requires banks > 0 && IsMostWords(total, addrs, active, 0, |addrs|, banks)
    ensures TakesLeast(total, addrs, active, banks)
  {
    forall first: nat | WordsWithin(addrs, active, first, banks) && SomeActive(active, 0, |addrs|) ensures total == 1 {
      ConsecutiveTakeOne(total, addrs, active, first, banks);
    }
    forall first: nat | OnStride(addrs, active, first, 4 * banks) ensures total == |AddressesUsed(addrs, active)| {
      StrideTakesEach(total, addrs, active, first, banks);
    }
  }

  /** Cycles of a shared-memory instruction: the parts of the warp one after the other. The
      total is positive exactly when some thread of some part is active. */
  method BankConflictCycles(addrs: seq<nat>, active: set<nat>, parts: nat, banks: nat, limited: bool)
    returns (total: nat, ghost counts: seq<nat>)
    requires parts > 0 && banks > 0
    ensures |counts| == parts && total == Sum(counts) <= |addrs|
    ensures Start(parts, |addrs| / parts) <= |addrs|
    ensures PartCounts(counts, addrs, active, |addrs| / parts, banks, limited)
    ensures PartsCounted(counts, addrs, active, |addrs| / parts, banks, limited)
    ensures parts == 1 && !limited ==> TakesLeast(total, addrs, active, banks)
    ensures total > 0 <==> SomeActive(active, 0, Start(parts, |addrs| / parts))
    ensures |addrs| % parts == 0 ==> Start(parts, |addrs| / parts) == |addrs|
  {
    PartsFit(parts, |addrs|);
    total, counts := CyclesOfParts(addrs, active, parts, |addrs| / parts, banks, limited);
    AllCounted(counts, addrs, active, |addrs| / parts, banks, limited);
    if parts == 1 && !limited {
      OnePart(total, counts, addrs, active, banks);
      OnePartTakesLeast(total, addrs, active, banks);
    }
  }

  lemma PartLimitedAtLeastFull(full: nat, limited: nat, l: seq<int>, bank: BankMap)
    requires IsCycleCount(full, l, bank, false) && IsCycleCount(limited, l, bank, true)
    ensures full <= limited
  {
    var cast :| IsBroadcast(cast, l, bank) && IsMaxLimited(limited, l, bank, cast);
    LimitedAtLeastFull(l, bank, full, limited, cast);
  }

  /** Over the whole instruction, limited broadcast never takes fewer cycles. */
  lemma {:induction false} LimitedTotalAtLeastFull(
    full: seq<nat>, limited: seq<nat>, addrs: seq<nat>, active: set<nat>, size: nat, banks: nat)
    requires banks > 0 && |full| == |limited| && Start(|full|, size) <= |addrs|
    requires PartCounts(full, addrs, active, size, banks, false)
    requires PartCounts(limited, addrs, active, size, banks, true)
    ensures Sum(full) <= Sum(limited)
  {
    if full != [] {
      var p := |full| - 1;
      LimitedTotalAtLeastFull(full[..p], limited[..p], addrs, active, size, banks);
      var words := ActiveWords(addrs, active, Start(p, size), Start(p + 1, size));
      PartLimitedAtLeastFull(full[p], limited[p], words, BankOf(banks));
    }
  }
}
