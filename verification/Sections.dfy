/** The pass over the sections cuobjdump finds in a binary: keep the highest allowed
capability of every cubin, then merge the PTX sections of one identifier into one file.

PTX files are text: their contents hold no NUL.
 */
module Sections {
  import opened Options

  datatype Section =
    | Elf(arch: nat, identifier: string, elfFile: string, sassFile: string)
    | Ptx(arch: nat, identifier: string, ptxFile: string)

  type Files = map<string, string>

  function Last<T>(s: seq<T>): T
    requires s != []
  {
    s[|s| - 1]
  }

  function Init<T>(s: seq<T>): seq<T>
    requires s != []
  {
    s[..|s| - 1]
  }

  function Filter<T>(list: seq<T>, p: T -> bool): seq<T> {
    if list == [] then [] else Filter(Init(list), p) + if p(Last(list)) then [Last(list)] else []
  }

  lemma FilterOne<T>(list: seq<T>, s: T, p: T -> bool)
    ensures Filter(list + [s], p) == Filter(list, p) + if p(s) then [s] else []
  {
    assert Init(list + [s]) == list;
  }

  lemma {:induction false} FilterIn<T>(list: seq<T>, p: T -> bool, s: T)
    ensures s in Filter(list, p) <==> s in list && p(s)
  {
    if list != [] {
      FilterIn(Init(list), p, s);
      assert list == Init(list) + [Last(list)];
    }
  }

  lemma FilterElements<T>(list: seq<T>, p: T -> bool)
    ensures forall s | s in Filter(list, p) :: s in list && p(s)
  {
    forall s | s in Filter(list, p) ensures s in list && p(s) {
      FilterIn(list, p, s);
    }
  }

  lemma {:induction false} FilterAppend<T>(a: seq<T>, b: seq<T>, p: T -> bool)
    ensures Filter(a + b, p) == Filter(a, p) + Filter(b, p)
  {
    if b == [] {
      assert a + b == a;
    } else {
      FilterAppend(a, Init(b), p);
      assert Init(a + b) == a + Init(b) && Last(a + b) == Last(b);
    }
  }

  lemma {:induction false} FilterTwice<T>(list: seq<T>, p: T -> bool, q: T -> bool, both: T -> bool)
    requires forall s :: both(s) == (p(s) && q(s))
    ensures Filter(Filter(list, p), q) == Filter(list, both)
  {
    if list != [] {
      FilterTwice(Init(list), p, q, both);
      FilterOne(Filter(Init(list), p), Last(list), q);
      assert !p(Last(list)) ==> Filter(list, p) == Filter(Init(list), p);
    }
  }

  lemma {:induction false} FilterSame<T>(list: seq<T>, p: T -> bool, q: T -> bool)
    requires forall i | 0 <= i < |list| :: p(list[i]) == q(list[i])
    ensures Filter(list, p) == Filter(list, q)
  {
    if list != [] {
      FilterSame(Init(list), p, q);
    }
  }

  lemma {:induction false} FilterAll<T>(list: seq<T>, p: T -> bool)
    requires forall s | s in list :: p(s)
    ensures Filter(list, p) == list
  {
    if list != [] {
      var init, last := Init(list), Last(list);
      FilterAll(init, p);
      assert list == init + [last];
      FilterOne(init, last, p);
    }
  }

  lemma {:induction false} FilterNone<T>(list: seq<T>, p: T -> bool)
    requires forall i | 0 <= i < |list| :: !p(list[i])
    ensures Filter(list, p) == []
  {
    if list != [] {
      FilterNone(Init(list), p);
    }
  }

  // ----- pruning ---------------------------------------------------------------------------

  /** The capability limit in force; 0 is "no limit". PTXPlus supports nothing above 19. */
  function Limit(forcedMax: nat, ptxPlus: bool): nat {
    if ptxPlus && (forcedMax == 0 || forcedMax >= 20) then 19 else forcedMax
  }

  predicate Allowed(s: Section, limit: nat) {
    s.Ptx? && (s.arch <= limit || limit == 0)
  }

  /** The value `cuobjdumpSectionMap[id]` has, or is given, in the second loop of the source. */
  function Capability(best: map<string, nat>, id: string): nat {
    if id in best then best[id] else 0
  }

  /** `best` maps exactly the identifiers with an allowed PTX section to the highest
      capability among those. */
  ghost predicate IsBest(best: map<string, nat>, list: seq<Section>, limit: nat) {
    && (forall id | id in best ::
          exists s :: s in list && Allowed(s, limit) && s.identifier == id && s.arch == best[id])
    && (forall s | s in list && Allowed(s, limit) ::
          s.identifier in best && s.arch <= best[s.identifier])
  }

  /** Section `s` seen: its capability is recorded if allowed and higher than before. */
  function Improved(best: map<string, nat>, s: Section, limit: nat): map<string, nat> {
    if Allowed(s, limit) && (s.identifier !in best || best[s.identifier] < s.arch)
    then best[s.identifier := s.arch]
    else best
  }

  /** `cuobjdumpSectionMap` after the first loop. */
  function Best(list: seq<Section>, limit: nat): map<string, nat> {
    if list == [] then map[] else Improved(Best(Init(list), limit), Last(list), limit)
  }

  lemma {:induction false} BestIsBest(list: seq<Section>, limit: nat)
    ensures IsBest(Best(list, limit), list, limit)
  {
    if list != [] {
      BestIsBest(Init(list), limit);
      ImprovedIsBest(Best(Init(list), limit), Init(list), Last(list), limit);
      assert list == Init(list) + [Last(list)];
    }
  }

  lemma ImprovedIsBest(best: map<string, nat>, list: seq<Section>, s: Section, limit: nat)
    requires IsBest(best, list, limit)
    ensures IsBest(Improved(best, s, limit), list + [s], limit)
  {
  }

  function HasBest(best: map<string, nat>): Section -> bool {
    (s: Section) => s.arch == Capability(best, s.identifier)
  }

  function Pruned(list: seq<Section>, limit: nat): seq<Section> {
    Filter(list, HasBest(Best(list, limit)))
  }

  method FindBest(list: seq<Section>, limit: nat) returns (best: map<string, nat>)
    ensures best == Best(list, limit)
  {
    best := map[];
    for i := 0 to |list|
      invariant best == Best(list[..i], limit)
    {
      var s := list[i];
      assert Init(list[..i + 1]) == list[..i] && Last(list[..i + 1]) == s;
      if Allowed(s, limit) {
        if s.identifier !in best || best[s.identifier] < s.arch {
          best := best[s.identifier := s.arch];
        }
      }
    }
    assert list[..|list|] == list;
  }

  /** A PTX section survives exactly when it is within the limit and no allowed PTX
      section of the same identifier has a higher capability. */
  lemma PtxSurvives(list: seq<Section>, limit: nat, s: Section)
    requires s in list && s.Ptx?
    ensures s in Pruned(list, limit) <==>
      Allowed(s, limit) && forall o | o in list && Allowed(o, limit) && o.identifier == s.identifier :: o.arch <= s.arch
  {
    var best := Best(list, limit);
    BestIsBest(list, limit);
    FilterIn(list, HasBest(best), s);
  }

  /** An ELF section survives exactly when its capability is that of the surviving PTX
      sections of its identifier, or is 0 where there are none. */
  lemma ElfSurvives(list: seq<Section>, limit: nat, s: Section)
    requires s in list && s.Elf?
    ensures s in Pruned(list, limit) <==>
      if exists o :: o in list && Allowed(o, limit) && o.identifier == s.identifier
      then exists o :: o in Pruned(list, limit) && o.Ptx? && o.identifier == s.identifier && o.arch == s.arch
      else s.arch == 0
  {
    var best := Best(list, limit);
    BestIsBest(list, limit);
    FilterIn(list, HasBest(best), s);
    FilterElements(list, HasBest(best));
    if o :| o in list && Allowed(o, limit) && o.identifier == s.identifier {
      var p :| p in list && Allowed(p, limit) && p.identifier == s.identifier && p.arch == best[s.identifier];
      FilterIn(list, HasBest(best), p);
    }
  }

  // ----- merging -------------------------------------------------------------------------------

  predicate Matches(s: Section, id: string) {
    s.Ptx? && s.identifier == id
  }

  function IsMatch(id: string): Section -> bool {
    (s: Section) => Matches(s, id)
  }

  /** The PTX sections of one identifier. */
  function Matching(list: seq<Section>, id: string): (r: seq<Section>)
    ensures forall s | s in r :: s in list && Matches(s, id)
  {
    FilterElements(list, IsMatch(id));
    Filter(list, IsMatch(id))
  }

  predicate Has(list: seq<Section>, id: string) {
    Matching(list, id) != []
  }

  function Outside(ids: set<string>): Section -> bool {
    (s: Section) => !(s.Ptx? && s.identifier in ids)
  }

  /** The sections left when the PTX sections of the identifiers in `ids` are taken out. */
  function Without(list: seq<Section>, ids: set<string>): seq<Section> {
    Filter(list, Outside(ids))
  }

  function NonPtx(list: seq<Section>): seq<Section> {
    Filter(list, (s: Section) => !s.Ptx?)
  }

  /** Identifiers of the PTX sections, in the order they are first seen. */
  function Identifiers(list: seq<Section>): seq<string> {
    if list == [] then []
    else
      var ids, s := Identifiers(Init(list)), Last(list);
      if s.Ptx? && s.identifier !in ids then ids + [s.identifier] else ids
  }

  lemma {:induction false} IdentifiersExact(list: seq<Section>)
    ensures forall s | s in list && s.Ptx? :: s.identifier in Identifiers(list)
    ensures AllHave(list, Identifiers(list))
    ensures Distinct(Identifiers(list))
  {
    if list != [] {
      var init, s := Init(list), Last(list);
      IdentifiersExact(init);
      assert list == init + [s];
      forall k | 0 <= k < |Identifiers(list)| ensures Has(list, Identifiers(list)[k]) {
        FilterOne(init, s, IsMatch(Identifiers(list)[k]));
        assert k < |Identifiers(init)| ==> Has(init, Identifiers(init)[k]);
      }
    }
  }

  /** Some PTX section has identifier `id`, and none up to it has identifier `other`. */
  ghost predicate SeenBefore(list: seq<Section>, id: string, other: string) {
    exists n :: 0 <= n < |list| && Matches(list[n], id) && forall m | 0 <= m <= n :: !Matches(list[m], other)
  }

  /** The identifiers are in the order of their first PTX sections. */
  lemma {:induction false} FirstSeenFirst(list: seq<Section>, i: nat, j: nat)
    requires i < j < |Identifiers(list)|
    ensures SeenBefore(list, Identifiers(list)[i], Identifiers(list)[j])
  {
    var init, s := Init(list), Last(list);
    var ids := Identifiers(init);
    var id, other := Identifiers(list)[i], Identifiers(list)[j];
    IdentifiersExact(init);
    if j < |ids| {
      FirstSeenFirst(init, i, j);
      var n :| 0 <= n < |init| && Matches(init[n], id) && forall m | 0 <= m <= n :: !Matches(init[m], other);
      assert Matches(list[n], id) && forall m | 0 <= m <= n :: list[m] == init[m];
    } else {
      var o := Matching(init, id)[0];
      assert o in Matching(init, id);
      var n :| 0 <= n < |init| && init[n] == o;
      forall m | 0 <= m <= n ensures !Matches(list[m], other) {
        assert init[m] in init && list[m] == init[m];
      }
      assert Matches(list[n], id);
    }
  }

  ghost predicate Distinct(ids: seq<string>) {
    forall i, j | 0 <= i < j < |ids| :: ids[i] != ids[j]
  }

  predicate AllHave(list: seq<Section>, ids: seq<string>) {
    forall i | 0 <= i < |ids| :: Has(list, ids[i])
  }

  const HEADER: nat := 50

  /** A PTX text without its version, target and address-size lines. */
  function Body(text: string): string {
    if |text| >= HEADER then text[HEADER..] else ""
  }

  predicate Present(list: seq<Section>, files: Files) {
    forall s | s in list && s.Ptx? :: s.ptxFile in files
  }

  /** `code` without its header is appended to the file; nothing happens to a short `code`. */
  function Extended(files: Files, file: string, code: string): (r: Files)
    requires file in files
    ensures r.Keys == files.Keys && r[file] == files[file] + Body(code)
    ensures forall f | f in files && f != file :: r[f] == files[f]
  {
    if |code| >= HEADER then files[file := files[file] + code[HEADER..]] else files
  }

  /** Every section's file gets the body of its predecessor's file appended, in list order. */
  function Appended(files: Files, list: seq<Section>): (r: Files)
    requires (forall s | s in list :: s.Ptx?) && Present(list, files)
    ensures r.Keys == files.Keys
  {
    if list == [] then files else
    var before := Appended(files, Init(list));
    Extended(before, Last(list).ptxFile, if |list| == 1 then "" else before[Last(Init(list)).ptxFile])
  }

  lemma AppendedOne(files: Files, list: seq<Section>, s: Section)
    requires (forall o | o in list :: o.Ptx?) && Present(list, files) && s.Ptx? && s.ptxFile in files
    ensures Appended(files, list + [s]) ==
      var before := Appended(files, list);
      Extended(before, s.ptxFile, if list == [] then "" else before[Last(list).ptxFile])
  {
    assert Init(list + [s]) == list && Last(list + [s]) == s;
  }

  lemma {:induction false} AppendedElsewhere(files: Files, list: seq<Section>, f: string)
    requires (forall s | s in list :: s.Ptx?) && Present(list, files)
    requires f in files && forall s | s in list :: s.ptxFile != f
    ensures Appended(files, list)[f] == files[f]
  {
    if list != [] {
      AppendedElsewhere(files, Init(list), f);
    }
  }

  /** What the last file holds, in terms of the texts there were. */
  function MergedText(texts: seq<string>): string
    requires texts != []
  {
    if |texts| == 1 then texts[0] else Last(texts) + Body(MergedText(Init(texts)))
  }

  ghost predicate DistinctFiles(list: seq<Section>) {
    forall i, j | 0 <= i < j < |list| && list[i].Ptx? && list[j].Ptx? :: list[i].ptxFile != list[j].ptxFile
  }

  function Texts(files: Files, list: seq<Section>): (r: seq<string>)
    requires (forall s | s in list :: s.Ptx?) && Present(list, files)
    ensures |r| == |list| && forall i | 0 <= i < |r| :: r[i] == files[list[i].ptxFile]
  {
    if list == [] then [] else Texts(files, Init(list)) + [files[Last(list).ptxFile]]
  }

  lemma {:induction false} AppendedText(files: Files, list: seq<Section>)
    requires list != [] && (forall s | s in list :: s.Ptx?) && Present(list, files) && DistinctFiles(list)
    ensures Appended(files, list)[Last(list).ptxFile] == MergedText(Texts(files, list))
  {
    if |list| > 1 {
      var init := Init(list);
      AppendedText(files, init);
      assert Init(Texts(files, list)) == Texts(files, init);
      assert forall s | s in init :: s.ptxFile != Last(list).ptxFile;
      AppendedElsewhere(files, init, Last(list).ptxFile);
    }
  }

  /** All bodies of `texts`, the last one first. */
  function Bodies(texts: seq<string>): string {
    if texts == [] then "" else Body(Last(texts)) + Bodies(Init(texts))
  }

  /** What merging is meant to give: the last text, then every earlier body. */
  function Intended(texts: seq<string>): string
    requires texts != []
  {
    Last(texts) + Bodies(Init(texts))
  }

  /** No text but the last is shorter than a header while an earlier one has a body. */
  predicate HeadersWhole(texts: seq<string>) {
    forall i, j | 0 <= j < i < |texts| - 1 && |texts[j]| > HEADER :: |texts[i]| >= HEADER
  }

  lemma {:induction false} NoBodies(texts: seq<string>)
    ensures Bodies(texts) == "" <==> forall j | 0 <= j < |texts| :: |texts[j]| <= HEADER
  {
    if texts != [] {
      NoBodies(Init(texts));
      assert forall j | 0 <= j < |texts| - 1 :: Init(texts)[j] == texts[j];
    }
  }

  lemma BodyOfSum(t: string, x: string)
    ensures |Body(t + x)| <= |Body(t)| + |x|
    ensures Body(t + x) == Body(t) + x <==> |t| >= HEADER || x == ""
    ensures |t| < HEADER && x != "" ==> |Body(t + x)| < |x|
  {
    if |t| >= HEADER {
      assert (t + x)[HEADER..] == t[HEADER..] + x;
    } else if x == "" {
      assert t + x == t && Body(t) + x == Body(t);
    }
  }

  /** The merged text is the intended one exactly when no header is cut short; otherwise
      it is strictly shorter, so PTX code is lost. */
  lemma {:induction false} MergedIsIntended(texts: seq<string>)
    requires texts != []
    ensures MergedText(texts) == Intended(texts) <==> HeadersWhole(texts)
    ensures !HeadersWhole(texts) ==> |MergedText(texts)| < |Intended(texts)|
  {
    if |texts| == 1 {
      assert Init(texts) == [] && texts[0] + "" == texts[0];
    } else {
      var init := Init(texts);
      var t, x := Last(init), Bodies(Init(init));
      MergedIsIntended(init);
      NoBodies(Init(init));
      BodyOfSum(t, x);
      assert Intended(init) == t + x && Bodies(init) == Body(t) + x;
      assert forall i | 0 <= i < |texts| - 1 :: init[i] == texts[i];
      assert forall i | 0 <= i < |texts| - 2 :: Init(init)[i] == texts[i];
      HeadersExtend(texts);
      if HeadersWhole(init) {
        assert MergedText(init) == t + x;
      } else {
        ShorterStays(MergedText(init), t, x);
      }
    }
  }

  /** A short text between a full one and the last: the body of the first is lost. */
  lemma CutHeaderExample(full: string)
    requires 50 < |full| < 99
    ensures MergedText([full, "b", "c"]) == "c"
    ensures Intended([full, "b", "c"]) == "c" + full[50..]
  {
    var texts := [full, "b", "c"];
    assert Init(texts) == [full, "b"] && Init([full, "b"]) == [full] && Init([full]) == [];
    assert MergedText([full, "b"]) == "b" + full[50..];
    BodyOfSum("b", full[50..]);
    assert Bodies([full]) == full[50..] + "";
    assert Bodies([full, "b"]) == "" + full[50..];
  }

  /** Each text is followed by what was merged before it, less 50 characters. */
  lemma MergedStep(texts: seq<string>, t: string)
    requires texts != []
    ensures MergedText([t]) == t
    ensures MergedText(texts + [t]) == t + if |MergedText(texts)| > 50 then MergedText(texts)[50..] else ""
  {
    assert Init(texts + [t]) == texts;
  }

  lemma HeadersExtend(texts: seq<string>)
    requires |texts| > 1
    ensures HeadersWhole(texts) <==>
      HeadersWhole(Init(texts)) &&
      (|Last(Init(texts))| >= HEADER || forall j | 0 <= j < |texts| - 2 :: |texts[j]| <= HEADER)
  {
    var init := Init(texts);
    assert Last(init) == texts[|texts| - 2];
    assert forall i | 0 <= i < |texts| - 1 :: init[i] == texts[i];
  }

  lemma ShorterStays(m: string, t: string, x: string)
    requires |m| < |t + x|
    ensures |Body(m)| < |Body(t) + x| || (Body(m) == "" && Body(t) + x == "")
  {
  }

  // ----- merging every identifier -----------------------------------------------------------------

  function LastMatch(list: seq<Section>, id: string): (s: Section)
    requires Has(list, id)
    ensures s in list && Matches(s, id)
  {
    Last(Matching(list, id))
  }

  /** The section kept for each identifier. */
  function Kept(list: seq<Section>, ids: seq<string>): (r: seq<Section>)
    requires AllHave(list, ids)
    ensures |r| == |ids| && forall i | 0 <= i < |r| :: r[i] == LastMatch(list, ids[i])
  {
    if ids == [] then [] else Kept(list, Init(ids)) + [LastMatch(list, Last(ids))]
  }

  function IdSet(ids: seq<string>): set<string> {
    set id | id in ids
  }

  /** The list after the identifiers in `ids` are merged. */
  function MergedList(list: seq<Section>, ids: seq<string>): seq<Section>
    requires AllHave(list, ids)
  {
    Without(list, IdSet(ids)) + Kept(list, ids)
  }

  lemma NoMatchKept(list: seq<Section>, ids: seq<string>, id: string)
    requires AllHave(list, ids) && id !in ids
    ensures Matching(Kept(list, ids), id) == []
  {
    var kept := Kept(list, ids);
    forall k | 0 <= k < |kept| ensures !IsMatch(id)(kept[k]) {
      assert ids[k] in ids;
    }
    FilterNone(kept, IsMatch(id));
  }

  lemma MatchingMerged(list: seq<Section>, ids: seq<string>, id: string)
    requires AllHave(list, ids) && id !in ids
    ensures Matching(MergedList(list, ids), id) == Matching(list, id)
  {
    FilterAppend(Without(list, IdSet(ids)), Kept(list, ids), IsMatch(id));
    FilterTwice(list, Outside(IdSet(ids)), IsMatch(id), IsMatch(id));
    NoMatchKept(list, ids, id);
  }

  lemma WithoutMerged(list: seq<Section>, ids: seq<string>, id: string)
    requires AllHave(list, ids) && id !in ids
    ensures Without(MergedList(list, ids), {id}) == Without(list, IdSet(ids + [id])) + Kept(list, ids)
  {
    var kept := Kept(list, ids);
    FilterAppend(Without(list, IdSet(ids)), kept, Outside({id}));
    FilterTwice(list, Outside(IdSet(ids)), Outside({id}), Outside(IdSet(ids + [id])));
    forall s | s in kept ensures Outside({id})(s) {
      var k :| 0 <= k < |kept| && kept[k] == s;
      assert ids[k] in ids;
    }
    FilterAll(kept, Outside({id}));
  }

  /** Merging one more identifier. */
  lemma MergeOneMore(list: seq<Section>, ids: seq<string>, id: string)
    requires AllHave(list, ids + [id]) && AllHave(list, ids) && Has(list, id) && id !in ids
    ensures Has(MergedList(list, ids), id)
    ensures var merged := MergedList(list, ids);
      Without(merged, {id}) + [LastMatch(merged, id)] == MergedList(list, ids + [id])
  {
    MatchingMerged(list, ids, id);
    WithoutMerged(list, ids, id);
    assert Init(ids + [id]) == ids;
  }

  /** After all identifiers: the non-PTX sections in their order, then one PTX section for
      each identifier, in first-seen order. */
  lemma MergedLayout(list: seq<Section>)
    requires AllHave(list, Identifiers(list))
    ensures MergedList(list, Identifiers(list)) == NonPtx(list) + Kept(list, Identifiers(list))
  {
    IdentifiersExact(list);
    FilterSame(list, Outside(IdSet(Identifiers(list))), (s: Section) => !s.Ptx?);
  }

  lemma MergedNone(list: seq<Section>)
    ensures MergedList(list, []) == list
  {
    FilterAll(list, Outside(IdSet([])));
  }

  lemma PresentMerged(list: seq<Section>, ids: seq<string>, files: Files)
    requires AllHave(list, ids) && Present(list, files)
    ensures Present(MergedList(list, ids), files)
  {
    FilterElements(list, Outside(IdSet(ids)));
  }

  ghost predicate TextMerged(list: seq<Section>, ids: seq<string>, before: Files, after: Files, k: nat)
    requires Present(list, before) && AllHave(list, ids) && after.Keys == before.Keys && k < |ids|
  {
    after[LastMatch(list, ids[k]).ptxFile] == MergedText(Texts(before, Matching(list, ids[k])))
  }

  /** Every kept section's file holds the merged text of its identifier; the files of
      sections of other identifiers, and files of no section, are as they were. */
  ghost predicate FilesMerged(list: seq<Section>, ids: seq<string>, before: Files, after: Files)
    requires Present(list, before) && AllHave(list, ids)
  {
    && after.Keys == before.Keys
    && (forall k: nat | k < |ids| :: TextMerged(list, ids, before, after, k))
    && (forall f | f in before && !Owned(list, ids, f) :: after[f] == before[f])
  }

  ghost predicate Owned(list: seq<Section>, ids: seq<string>, f: string) {
    exists s :: s in list && s.Ptx? && s.identifier in ids && s.ptxFile == f
  }

  lemma {:induction false} TextsSame(a: Files, b: Files, list: seq<Section>)
    requires (forall s | s in list :: s.Ptx?) && Present(list, a) && Present(list, b)
    requires forall s | s in list :: a[s.ptxFile] == b[s.ptxFile]
    ensures Texts(a, list) == Texts(b, list)
  {
    if list != [] {
      TextsSame(a, b, Init(list));
    }
  }

  lemma {:induction false} FilterDistinct(list: seq<Section>, p: Section -> bool)
    requires DistinctFiles(list)
    ensures DistinctFiles(Filter(list, p))
  {
    if list != [] {
      var m := Filter(Init(list), p);
      FilterDistinct(Init(list), p);
      FilterElements(Init(list), p);
      forall k | 0 <= k < |m| && m[k].Ptx? && Last(list).Ptx? ensures m[k].ptxFile != Last(list).ptxFile {
        assert m[k] in m;
        var i :| 0 <= i < |Init(list)| && Init(list)[i] == m[k];
      }
    }
  }

  lemma DistinctPair(list: seq<Section>, s: Section, o: Section)
    requires DistinctFiles(list) && s in list && o in list && s.Ptx? && o.Ptx? && s != o
    ensures s.ptxFile != o.ptxFile
  {
    var i :| 0 <= i < |list| && list[i] == s;
    var j :| 0 <= j < |list| && list[j] == o;
  }

  lemma UntouchedTexts(list: seq<Section>, ids: seq<string>, id: string, before: Files, mid: Files)
    requires Present(list, before) && DistinctFiles(list) && AllHave(list, ids) && id !in ids
    requires FilesMerged(list, ids, before, mid)
    ensures Texts(mid, Matching(list, id)) == Texts(before, Matching(list, id))
  {
    var m := Matching(list, id);
    forall s | s in m ensures mid[s.ptxFile] == before[s.ptxFile] {
      if o :| o in list && o.Ptx? && o.identifier in ids && o.ptxFile == s.ptxFile {
        DistinctPair(list, s, o);
      }
    }
    TextsSame(mid, before, m);
  }

  /** Merging an identifier leaves the kept files of the others alone. */
  lemma KeptFileStays(list: seq<Section>, ids: seq<string>, id: string, mid: Files, k: nat)
    requires Present(list, mid) && DistinctFiles(list) && AllHave(list, ids) && id !in ids && k < |ids|
    ensures var f := LastMatch(list, ids[k]).ptxFile; Appended(mid, Matching(list, id))[f] == mid[f]
  {
    var m, o := Matching(list, id), LastMatch(list, ids[k]);
    assert ids[k] in ids;
    forall s | s in m ensures s.ptxFile != o.ptxFile {
      DistinctPair(list, s, o);
    }
    AppendedElsewhere(mid, m, o.ptxFile);
  }

  lemma NewText(list: seq<Section>, ids: seq<string>, id: string, before: Files, mid: Files)
    requires Present(list, before) && DistinctFiles(list) && AllHave(list, ids) && Has(list, id) && id !in ids
    requires FilesMerged(list, ids, before, mid)
    ensures Present(list, mid)
    ensures Appended(mid, Matching(list, id))[LastMatch(list, id).ptxFile] ==
      MergedText(Texts(before, Matching(list, id)))
  {
    FilterDistinct(list, IsMatch(id));
    UntouchedTexts(list, ids, id, before, mid);
    AppendedText(mid, Matching(list, id));
  }

  lemma UnownedStays(list: seq<Section>, ids: seq<string>, id: string, mid: Files, f: string)
    requires Present(list, mid) && f in mid && !Owned(list, ids + [id], f)
    ensures !Owned(list, ids, f) && Appended(mid, Matching(list, id))[f] == mid[f]
  {
    AppendedElsewhere(mid, Matching(list, id), f);
  }

  lemma FilesOneMore(list: seq<Section>, ids: seq<string>, id: string, before: Files, mid: Files)
    requires Present(list, before) && DistinctFiles(list)
    requires AllHave(list, ids + [id]) && AllHave(list, ids) && Has(list, id) && id !in ids
    requires FilesMerged(list, ids, before, mid)
    ensures FilesMerged(list, ids + [id], before, Appended(mid, Matching(list, id)))
  {
    var all, after := ids + [id], Appended(mid, Matching(list, id));
    NewText(list, ids, id, before, mid);
    forall k: nat | k < |all| ensures TextMerged(list, all, before, after, k) {
      if k < |ids| {
        KeptFileStays(list, ids, id, mid, k);
        assert TextMerged(list, ids, before, mid, k);
      }
    }
    forall f | f in before && !Owned(list, all, f) ensures after[f] == before[f] {
      UnownedStays(list, ids, id, mid, f);
    }
  }

  ghost predicate MergedSoFar(list: seq<Section>, ids: seq<string>, before: Files, sections: seq<Section>, files: Files)
    requires Present(list, before) && AllHave(list, ids)
  {
    sections == MergedList(list, ids) && FilesMerged(list, ids, before, files)
  }

  lemma MergeRound(
    list: seq<Section>, ids: seq<string>, id: string, before: Files, sections: seq<Section>, files: Files)
    requires Present(list, before) && DistinctFiles(list)
    requires AllHave(list, ids + [id]) && AllHave(list, ids) && Has(list, id) && id !in ids
    requires MergedSoFar(list, ids, before, sections, files)
    ensures Present(sections, files) && Has(sections, id)
    ensures MergedSoFar(list, ids + [id], before,
      Without(sections, {id}) + [LastMatch(sections, id)], Appended(files, Matching(sections, id)))
  {
    MergeOneMore(list, ids, id);
    MatchingMerged(list, ids, id);
    PresentMerged(list, ids, files);
    FilesOneMore(list, ids, id, before, files);
  }

  lemma MergedAtStart(list: seq<Section>, files: Files)
    requires Present(list, files)
    ensures AllHave(list, []) && MergedSoFar(list, [], files, list, files)
  {
    MergedNone(list);
  }

  lemma MergedAtEnd(list: seq<Section>, before: Files, sections: seq<Section>, files: Files)
    requires Present(list, before) && AllHave(list, Identifiers(list))
    requires MergedSoFar(list, Identifiers(list), before, sections, files)
    ensures sections == NonPtx(list) + Kept(list, Identifiers(list))
    ensures FilesMerged(list, Identifiers(list), before, files)
  {
    MergedLayout(list);
  }

  lemma NextIdentifier(list: seq<Section>, ids: seq<string>, k: nat)
    requires AllHave(list, ids) && Distinct(ids) && k < |ids|
    ensures ids[..k + 1] == ids[..k] + [ids[k]]
    ensures AllHave(list, ids[..k]) && AllHave(list, ids[..k] + [ids[k]]) && Has(list, ids[k])
    ensures ids[k] !in ids[..k]
  {
  }

  /** How far the loop over the matching sections has come: what it kept, the last match, the
      text it read last, and the files. */
  datatype MatchLoop = MatchLoop(merged: seq<Section>, last: Option<Section>, code: string, files: Files)

  ghost predicate MatchedUpTo(list: seq<Section>, i: nat, id: string, before: Files, st: MatchLoop)
    requires Present(list, before) && i <= |list|
  {
    var m := Matching(list[..i], id);
    && st.merged == Without(list[..i], {id})
    && st.last == (if m == [] then None else Some(Last(m)))
    && (m == [] ==> st.code == "")
    && st.files == Appended(before, m)
  }

  /** The text appended to the next matching file. */
  ghost function CodeRead(st: MatchLoop): string
    requires st.last.Some? ==> st.last.value.Ptx? && st.last.value.ptxFile in st.files
  {
    if st.last.Some? then st.files[st.last.value.ptxFile] else st.code
  }

  lemma LastIsRead(list: seq<Section>, i: nat, id: string, before: Files, st: MatchLoop)
    requires Present(list, before) && i <= |list| && MatchedUpTo(list, i, id, before, st)
    ensures st.files.Keys == before.Keys
    ensures st.last.Some? ==> st.last.value.Ptx? && st.last.value.ptxFile in st.files
  {
    var m := Matching(list[..i], id);
    assert m != [] ==> Last(m) in m;
  }

  lemma SkipSection(list: seq<Section>, i: nat, id: string, before: Files, st: MatchLoop)
    requires Present(list, before) && i < |list| && MatchedUpTo(list, i, id, before, st) && !Matches(list[i], id)
    ensures MatchedUpTo(list, i + 1, id, before, st.(merged := st.merged + [list[i]]))
  {
    assert list[..i + 1] == list[..i] + [list[i]];
    FilterOne(list[..i], list[i], IsMatch(id));
    FilterOne(list[..i], list[i], Outside({id}));
    assert Matching(list[..i], id) + [] == Matching(list[..i], id);
  }

  lemma MatchSection(list: seq<Section>, i: nat, id: string, before: Files, st: MatchLoop, st': MatchLoop)
    requires Present(list, before) && i < |list| && MatchedUpTo(list, i, id, before, st) && Matches(list[i], id)
    requires st.files.Keys == before.Keys
    requires st.last.Some? ==> st.last.value.Ptx? && st.last.value.ptxFile in st.files
    requires st' == MatchLoop(st.merged, Some(list[i]), CodeRead(st), Extended(st.files, list[i].ptxFile, CodeRead(st)))
    ensures MatchedUpTo(list, i + 1, id, before, st')
  {
    var m := Matching(list[..i], id);
    assert list[..i + 1] == list[..i] + [list[i]];
    FilterOne(list[..i], list[i], IsMatch(id));
    FilterOne(list[..i], list[i], Outside({id}));
    assert Without(list[..i], {id}) + [] == Without(list[..i], {id});
    AppendedOne(before, m, list[i]);
  }

  // ----- prune, then merge ------------------------------------------------------------------------------

  /** A section of the highest allowed capability of its identifier. */
  ghost predicate IsHighest(list: seq<Section>, limit: nat, s: Section) {
    && s in list && Allowed(s, limit)
    && forall o | o in list && Allowed(o, limit) && o.identifier == s.identifier :: o.arch <= s.arch
  }

  /** The merged list has one PTX section for exactly the identifiers with a PTX section
      within the limit, and it is one of the highest allowed capability. */
  lemma PruneThenMerge(list: seq<Section>, limit: nat)
    ensures AllHave(Pruned(list, limit), Identifiers(Pruned(list, limit))) && Distinct(Identifiers(Pruned(list, limit)))
    ensures forall id :: id in Identifiers(Pruned(list, limit)) <==>
      exists s :: s in list && Allowed(s, limit) && s.identifier == id
    ensures forall s | s in Kept(Pruned(list, limit), Identifiers(Pruned(list, limit))) :: IsHighest(list, limit, s)
  {
    var best := Best(list, limit);
    BestIsBest(list, limit);
    var pruned := Pruned(list, limit);
    var ids := Identifiers(pruned);
    IdentifiersExact(pruned);
    FilterElements(list, HasBest(best));
    forall s | s in list && Allowed(s, limit) ensures s.identifier in ids {
      var p :| p in list && Allowed(p, limit) && p.identifier == s.identifier && p.arch == best[s.identifier];
      FilterIn(list, HasBest(best), p);
    }
    forall k | 0 <= k < |ids| ensures IsHighest(list, limit, LastMatch(pruned, ids[k])) {
      PtxSurvives(list, limit, LastMatch(pruned, ids[k]));
    }
    forall id | id in ids ensures exists s :: s in list && Allowed(s, limit) && s.identifier == id {
      var k :| 0 <= k < |ids| && ids[k] == id;
      assert IsHighest(list, limit, LastMatch(pruned, ids[k]));
    }
  }

  /** The PTX sections of `after`: one for each identifier with an allowed PTX section in
      `before`, no others, and of the highest allowed capability. */
  ghost predicate OnePerIdentifier(before: seq<Section>, limit: nat, after: seq<Section>) {
    && (forall s | s in after && s.Ptx? :: IsHighest(before, limit, s))
    && (forall i, j | 0 <= i < j < |after| && after[i].Ptx? && after[j].Ptx? ::
          after[i].identifier != after[j].identifier)
    && (forall s | s in before && Allowed(s, limit) ::
          exists o :: o in after && o.Ptx? && o.identifier == s.identifier)
  }

  lemma PrunedAndMerged(list: seq<Section>, limit: nat)
    ensures var pruned := Pruned(list, limit);
      && AllHave(pruned, Identifiers(pruned))
      && OnePerIdentifier(list, limit, NonPtx(pruned) + Kept(pruned, Identifiers(pruned)))
  {
    var pruned := Pruned(list, limit);
    var ids := Identifiers(pruned);
    PruneThenMerge(list, limit);
    var others, kept := NonPtx(pruned), Kept(pruned, ids);
    var after := others + kept;
    FilterElements(pruned, (s: Section) => !s.Ptx?);
    assert forall i | 0 <= i < |others| :: others[i] in others;
    forall i, j | 0 <= i < j < |after| && after[i].Ptx? && after[j].Ptx?
      ensures after[i].identifier != after[j].identifier
    {
      assert i >= |others| && ids[i - |others|] != ids[j - |others|];
    }
    forall s | s in list && Allowed(s, limit) ensures exists o :: o in after && o.Ptx? && o.identifier == s.identifier {
      assert s.identifier in ids;
      var k :| 0 <= k < |ids| && ids[k] == s.identifier;
      assert kept[k] in after;
    }
  }

  // ----- by capabilities --------------------------------------------------------------------------------

  /** Within the forced maximum, and supported by PTXPlus. */
  predicate InBounds(arch: nat, forcedMax: nat, ptxPlus: bool) {
    (ptxPlus ==> arch <= 19) && (forcedMax > 0 ==> arch <= forcedMax)
  }

  /** No PTX section of the identifier of `s` is higher, unless it is out of bounds. */
  ghost predicate NoneBetter(list: seq<Section>, forcedMax: nat, ptxPlus: bool, s: Section) {
    forall o | o in list && o.Ptx? && o.identifier == s.identifier && o.arch > s.arch ::
      (ptxPlus && o.arch >= 20) || 0 < forcedMax < o.arch
  }

  ghost predicate IsBestPtx(list: seq<Section>, forcedMax: nat, ptxPlus: bool, s: Section) {
    s in list && s.Ptx? && InBounds(s.arch, forcedMax, ptxPlus) && NoneBetter(list, forcedMax, ptxPlus, s)
  }

  /** An ELF section is kept for its capability: that of the best PTX sections, 0 without any. */
  ghost predicate IsKeptElf(list: seq<Section>, forcedMax: nat, ptxPlus: bool, s: Section) {
    && s in list && s.Elf?
    && if exists o :: o in list && o.Ptx? && o.identifier == s.identifier && InBounds(o.arch, forcedMax, ptxPlus)
       then exists o :: IsBestPtx(list, forcedMax, ptxPlus, o) && o.identifier == s.identifier && o.arch == s.arch
       else s.arch == 0
  }

  /** There is something to keep: a PTX section within bounds, or an ELF section of capability 0
      whatever its identifier. */
  ghost predicate SomeKept(list: seq<Section>, forcedMax: nat, ptxPlus: bool) {
    exists s :: s in list && if s.Ptx? then InBounds(s.arch, forcedMax, ptxPlus) else s.arch == 0
  }

  ghost predicate KeepsBest(list: seq<Section>, forcedMax: nat, ptxPlus: bool, kept: seq<Section>) {
    forall s :: s in kept <==> IsBestPtx(list, forcedMax, ptxPlus, s) || IsKeptElf(list, forcedMax, ptxPlus, s)
  }

  lemma LimitIsBounds(s: Section, forcedMax: nat, ptxPlus: bool)
    ensures Allowed(s, Limit(forcedMax, ptxPlus)) <==> s.Ptx? && InBounds(s.arch, forcedMax, ptxPlus)
  {
  }

  lemma HighestIsBest(list: seq<Section>, forcedMax: nat, ptxPlus: bool, s: Section)
    ensures IsHighest(list, Limit(forcedMax, ptxPlus), s) <==> IsBestPtx(list, forcedMax, ptxPlus, s)
  {
    forall o ensures Allowed(o, Limit(forcedMax, ptxPlus)) <==> o.Ptx? && InBounds(o.arch, forcedMax, ptxPlus) {
      LimitIsBounds(o, forcedMax, ptxPlus);
    }
  }

  /** What pruning keeps, by capabilities alone. */
  lemma PrunedKeepsBest(list: seq<Section>, forcedMax: nat, ptxPlus: bool)
    ensures KeepsBest(list, forcedMax, ptxPlus, Pruned(list, Limit(forcedMax, ptxPlus)))
  {
    var limit := Limit(forcedMax, ptxPlus);
    var pruned := Pruned(list, limit);
    FilterElements(list, HasBest(Best(list, limit)));
    forall s ensures s in pruned && s.Ptx? <==> IsBestPtx(list, forcedMax, ptxPlus, s) {
      if s in list && s.Ptx? {
        PtxSurvives(list, limit, s);
      }
      HighestIsBest(list, forcedMax, ptxPlus, s);
    }
    forall s ensures s in pruned && s.Elf? <==> IsKeptElf(list, forcedMax, ptxPlus, s) {
      forall o ensures Allowed(o, limit) <==> o.Ptx? && InBounds(o.arch, forcedMax, ptxPlus) {
        LimitIsBounds(o, forcedMax, ptxPlus);
      }
      if s in list && s.Elf? {
        ElfSurvives(list, limit, s);
      }
    }
  }

  lemma PrunedIsEmpty(list: seq<Section>, forcedMax: nat, ptxPlus: bool)
    ensures Pruned(list, Limit(forcedMax, ptxPlus)) != [] <==> SomeKept(list, forcedMax, ptxPlus)
  {
    PruneAborts(list, Limit(forcedMax, ptxPlus));
    forall o ensures Allowed(o, Limit(forcedMax, ptxPlus)) <==> o.Ptx? && InBounds(o.arch, forcedMax, ptxPlus) {
      LimitIsBounds(o, forcedMax, ptxPlus);
    }
  }

  /** The sections after pruning and merging: the ELF ones kept, and one best PTX section for each
      identifier that has one within bounds. */
  ghost predicate KeepsOneBest(list: seq<Section>, forcedMax: nat, ptxPlus: bool, after: seq<Section>) {
    && (forall s | s in after && s.Ptx? :: IsBestPtx(list, forcedMax, ptxPlus, s))
    && (forall s: Section | s.Elf? :: s in after <==> IsKeptElf(list, forcedMax, ptxPlus, s))
    && (forall i, j | 0 <= i < j < |after| && after[i].Ptx? && after[j].Ptx? ::
          after[i].identifier != after[j].identifier)
    && (forall s | s in list && s.Ptx? && InBounds(s.arch, forcedMax, ptxPlus) ::
          exists o :: o in after && o.Ptx? && o.identifier == s.identifier)
  }

  /** What pruning and merging keeps, by capabilities alone. */
  lemma MergedKeepsOneBest(list: seq<Section>, forcedMax: nat, ptxPlus: bool)
    ensures var pruned := Pruned(list, Limit(forcedMax, ptxPlus));
      && AllHave(pruned, Identifiers(pruned))
      && KeepsOneBest(list, forcedMax, ptxPlus, NonPtx(pruned) + Kept(pruned, Identifiers(pruned)))
  {
    var limit := Limit(forcedMax, ptxPlus);
    var pruned := Pruned(list, limit);
    PrunedAndMerged(list, limit);
    PrunedKeepsBest(list, forcedMax, ptxPlus);
    var after := NonPtx(pruned) + Kept(pruned, Identifiers(pruned));
    forall s | s in after && s.Ptx? ensures IsBestPtx(list, forcedMax, ptxPlus, s) {
      HighestIsBest(list, forcedMax, ptxPlus, s);
    }
    forall s: Section | s.Elf? ensures s in after <==> s in pruned {
      FilterIn(pruned, (s: Section) => !s.Ptx?, s);
    }
    forall s | s in list && s.Ptx? && InBounds(s.arch, forcedMax, ptxPlus)
      ensures exists o :: o in after && o.Ptx? && o.identifier == s.identifier
    {
      LimitIsBounds(s, forcedMax, ptxPlus);
    }
  }

  /** Pruning aborts exactly when no PTX section is within the limit and no ELF section has
      capability 0: such an ELF section hides that there is no code to run. */
  lemma PruneAborts(list: seq<Section>, limit: nat)
    ensures Pruned(list, limit) == [] <==> forall s | s in list :: !Allowed(s, limit) && !(s.Elf? && s.arch == 0)
  {
    var best := Best(list, limit);
    BestIsBest(list, limit);
    var pruned := Pruned(list, limit);
    FilterElements(list, HasBest(best));
    if s :| s in list && Allowed(s, limit) {
      var p :| p in list && Allowed(p, limit) && p.identifier == s.identifier && p.arch == best[s.identifier];
      FilterIn(list, HasBest(best), p);
    }
    if s :| s in list && s.Elf? && s.arch == 0 && s.identifier !in best {
      FilterIn(list, HasBest(best), s);
    }
    if pruned != [] {
      var s := pruned[0];
      assert s in pruned;
    }
  }

  /** One ELF section of capability 0 and no PTX: nothing to run, and no abort. */
  lemma HiddenAbortExample(limit: nat)
    ensures var list := [Elf(0, "kernel", "a.elf", "a.sass")];
      Pruned(list, limit) != [] && forall s | s in list :: !Allowed(s, limit)
  {
    var list := [Elf(0, "kernel", "a.elf", "a.sass")];
    assert list[0] in list;
    PruneAborts(list, limit);
  }

  // ----- the loops of the source ----------------------------------------------------------------------

  /** The part of `cuda_runtime_api` this pass works on. */
  class SectionTable {
    var sections: seq<Section>
    var files: Files

    constructor (sections: seq<Section>, files: Files)
      ensures this.sections == sections && this.files == files
    {
      this.sections := sections;
      this.files := files;
    }

    /** None where the source aborts. */
    method PruneSectionList(forcedMax: nat, ptxPlus: bool) returns (r: Option<seq<Section>>)
      ensures var pruned := Pruned(sections, Limit(forcedMax, ptxPlus));
        r == if pruned == [] then None else Some(pruned)
      ensures r.Some? <==> SomeKept(sections, forcedMax, ptxPlus)
      ensures r.Some? ==> KeepsBest(sections, forcedMax, ptxPlus, r.value)
      ensures r.Some? ==>
        forall s | s in r.value && s.Ptx? :: (ptxPlus ==> s.arch <= 19) && (forcedMax > 0 ==> s.arch <= forcedMax)
    {
      var limit := forcedMax;
      if ptxPlus {
        if limit == 0 || limit >= 20 {
          limit := 19;
        }
      }
      var found := FindBest(sections, limit);
      var pruned := [];
      for i := 0 to |sections|
        invariant pruned == Filter(sections[..i], HasBest(found))
      {
        var s := sections[i];
        assert Init(sections[..i + 1]) == sections[..i];
        if s.arch == Capability(found, s.identifier) {
          pruned := pruned + [s];
        }
      }
      assert sections[..|sections|] == sections;
      PrunedKeepsBest(sections, forcedMax, ptxPlus);
      PrunedIsEmpty(sections, forcedMax, ptxPlus);
      r := if pruned == [] then None else Some(pruned);
    }

    /** The match branch: read the previous matching file, append its body to this one. */
    method AppendLast(s: Section, last: Option<Section>, code: string) returns (code': string)
      requires s.Ptx? && s.ptxFile in files
      requires last.Some? ==> last.value.Ptx? && last.value.ptxFile in files
      modifies this`files
      ensures code' == if last.Some? then old(files)[last.value.ptxFile] else code
      ensures files == Extended(old(files), s.ptxFile, code')
    {
      code' := code;
      if last.Some? {
        code' := files[last.value.ptxFile];
      }
      if |code'| >= HEADER {
        files := files[s.ptxFile := files[s.ptxFile] + code'[HEADER..]];
      }
    }

    /** The loop: the sections that do not match, and the last one that does. */
    method MergeMatches(identifier: string) returns (merged: seq<Section>, last: Option<Section>)
      requires Present(sections, files)
      modifies this`files
      ensures merged == Without(sections, {identifier})
      ensures last == var m := Matching(sections, identifier); if m == [] then None else Some(Last(m))
      ensures files == Appended(old(files), Matching(sections, identifier))
    {
      var code, list := "", sections;
      ghost var before := files;
      last, merged := None, [];
      for i := 0 to |list|
        invariant Present(list, before)
        invariant MatchedUpTo(list, i, identifier, before, MatchLoop(merged, last, code, files))
      {
        ghost var st := MatchLoop(merged, last, code, files);
        if Matches(list[i], identifier) {
          LastIsRead(list, i, identifier, before, st);
          code := AppendLast(list[i], last, code);
          last := Some(list[i]);
          MatchSection(list, i, identifier, before, st, MatchLoop(merged, last, code, files));
        } else {
          SkipSection(list, i, identifier, before, st);
          merged := merged + [list[i]];
        }
      }
      assert list[..|list|] == list;
    }

    method MergeMatchingSections(identifier: string) returns (merged: seq<Section>)
      requires Present(sections, files)
      requires Has(sections, identifier)
      modifies this`files
      ensures merged == Without(sections, {identifier}) + [LastMatch(sections, identifier)]
      ensures files == Appended(old(files), Matching(sections, identifier))
    {
      var last;
      merged, last := MergeMatches(identifier);
      merged := merged + [last.value];
    }

    method CollectIdentifiers() returns (ids: seq<string>)
      ensures ids == Identifiers(sections)
    {
      ids := [];
      for i := 0 to |sections|
        invariant ids == Identifiers(sections[..i])
      {
        assert Init(sections[..i + 1]) == sections[..i] && Last(sections[..i + 1]) == sections[i];
        if sections[i].Ptx? && sections[i].identifier !in ids {
          ids := ids + [sections[i].identifier];
        }
      }
      assert sections[..|sections|] == sections;
    }

    /** One round of the loop over the identifiers. */
    method MergeIdentifier(id: string, ghost list: seq<Section>, ghost ids: seq<string>, ghost before: Files)
      requires Present(list, before) && DistinctFiles(list)
      requires AllHave(list, ids + [id]) && AllHave(list, ids) && Has(list, id) && id !in ids
      requires MergedSoFar(list, ids, before, sections, files)
      modifies this
      ensures MergedSoFar(list, ids + [id], before, sections, files)
    {
      MergeRound(list, ids, id, before, sections, files);
      sections := MergeMatchingSections(id);
    }

    method MergeSections()
      requires Present(sections, files) && DistinctFiles(sections)
      modifies this
      ensures AllHave(old(sections), Identifiers(old(sections)))
      ensures sections == NonPtx(old(sections)) + Kept(old(sections), Identifiers(old(sections)))
      ensures FilesMerged(old(sections), Identifiers(old(sections)), old(files), files)
    {
      ghost var list, before := sections, files;
      var ids := CollectIdentifiers();
      IdentifiersExact(list);
      MergedAtStart(list, before);
      for k := 0 to |ids|
        invariant AllHave(list, ids[..k])
        invariant MergedSoFar(list, ids[..k], before, sections, files)
      {
        NextIdentifier(list, ids, k);
        MergeIdentifier(ids[k], list, ids[..k], before);
      }
      assert ids[..|ids|] == ids;
      MergedAtEnd(list, before, sections, files);
    }

    /** The two passes as the runtime calls them; false where pruning aborts. One PTX section
        remains for exactly the identifiers with one within the limit, of the highest such
        capability. */
    method PruneAndMerge(forcedMax: nat, ptxPlus: bool) returns (ok: bool)
      requires Present(sections, files) && DistinctFiles(sections)
      modifies this
      ensures ok == (Pruned(old(sections), Limit(forcedMax, ptxPlus)) != [])
      ensures ok ==>
        var pruned := Pruned(old(sections), Limit(forcedMax, ptxPlus));
        && AllHave(pruned, Identifiers(pruned)) && Present(pruned, old(files))
        && sections == NonPtx(pruned) + Kept(pruned, Identifiers(pruned))
        && FilesMerged(pruned, Identifiers(pruned), old(files), files)
      ensures ok ==> OnePerIdentifier(old(sections), Limit(forcedMax, ptxPlus), sections)
      ensures ok <==> SomeKept(old(sections), forcedMax, ptxPlus)
      ensures ok ==> KeepsOneBest(old(sections), forcedMax, ptxPlus, sections)
    {
      var pruned := PruneSectionList(forcedMax, ptxPlus);
      if pruned.None? {
        return false;
      }
      ghost var limit, list := Limit(forcedMax, ptxPlus), sections;
      FilterElements(list, HasBest(Best(list, limit)));
      FilterDistinct(list, HasBest(Best(list, limit)));
      sections := pruned.value;
      MergeSections();
      PrunedAndMerged(list, limit);
      MergedKeepsOneBest(list, forcedMax, ptxPlus);
      ok := true;
    }
  }
}
