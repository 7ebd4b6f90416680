/**
 * The learning dictionary `EnhancedDictionary`: a loop-based analyzer
 * (first-match affixes, longest-match root, the rest of the stem dropped)
 * that records every search, counts the table entries it uses and accepts
 * user corrections into its live root table.
 *
 * Persistence, the clock and the global word database are outside the
 * class: saves are not modelled, timestamps and the word database are
 * parameters, and the stored state is handed to the constructor.
 */
module EnhancedApi {
  import opened Wrappers
  import opened Text
  import opened Tables

  /** Gloss of a whole word nothing explains. */
  const UnknownGloss: string := "词根（未知）"
  /** Gloss of an inferred root. */
  const InferredGloss: string := "词根"
  /** Gloss of an inferred root whose similar words have glosses. */
  const RelatedGloss: string := "相关含义"

  /** The fixed decomposition returned for "asparagus". */
  const AsparagusParts: seq<Component> :=
    [Component("aspar", "芦笋"), Component("ag", "做，驱动"), Component("-us", "名词后缀")]

  /** One `searchHistory` record. */
  datatype SearchEntry = SearchEntry(word: string, timestamp: int)

  /** One `userCorrections[word][rootIndex]` record. */
  datatype Correction = Correction(root: string, meaning: string, timestamp: int)

  /** `userCorrections`: word to root index to correction. */
  type Corrections = map<string, map<int, Correction>>

  /** `rootFrequency`: table key to the number of times it was used. */
  type Frequencies = Table<int>

  /** The persisted learning state. */
  datatype LearningData = LearningData(
    searchHistory: seq<SearchEntry>,
    rootFrequency: Frequencies,
    userCorrections: Corrections)

  /** The state used when nothing is stored yet. */
  const EmptyLearningData: LearningData := LearningData([], [], map[])

  /** The built-in prefix, suffix and root tables. */
  const InitialRootPatterns: Patterns := Patterns(
    [("ab-", "离开，脱离"), ("ad-", "向，朝"), ("ante-", "在前"), ("anti-", "反对"),
     ("auto-", "自动"), ("bi-", "二"), ("circum-", "周围"), ("co-", "共同"),
     ("contra-", "反对"), ("de-", "去除"), ("dis-", "分离"), ("ex-", "向外"),
     ("extra-", "超出"), ("in-", "向内"), ("inter-", "之间"), ("intra-", "内部"),
     ("mis-", "错误"), ("non-", "不"), ("over-", "过度"), ("post-", "之后"),
     ("pre-", "之前"), ("pro-", "向前"), ("re-", "重新"), ("semi-", "半"),
     ("sub-", "在下"), ("super-", "超级"), ("trans-", "穿过"), ("un-", "不"),
     ("under-", "在下"), ("uni-", "单一")],
    [("-able", "能够的"), ("-ible", "能够的"), ("-al", "形容词后缀"), ("-ance", "名词后缀"),
     ("-ence", "名词后缀"), ("-ant", "形容词后缀"), ("-ent", "形容词后缀"),
     ("-ary", "形容词后缀"), ("-ery", "名词后缀"), ("-ful", "充满的"),
     ("-ic", "形容词后缀"), ("-ical", "形容词后缀"), ("-ism", "主义"),
     ("-ist", "表示人"), ("-ity", "名词后缀"), ("-ive", "形容词后缀"),
     ("-less", "没有的"), ("-ly", "副词后缀"), ("-ment", "名词后缀"),
     ("-ness", "名词后缀"), ("-ous", "形容词后缀"), ("-ship", "状态"),
     ("-tion", "名词后缀"), ("-sion", "名词后缀"), ("-ure", "名词后缀")],
    [("act", "做，行动"), ("anim", "生命，心灵"), ("aud", "听"), ("bio", "生命"),
     ("cap", "拿，抓"), ("ced", "走"), ("cept", "拿，接受"), ("chron", "时间"),
     ("cid", "切，杀"), ("cred", "相信"), ("dict", "说"), ("duc", "引导"),
     ("fac", "做，制造"), ("fer", "带来，承受"), ("fid", "信任"), ("form", "形状"),
     ("gen", "产生"), ("geo", "地球"), ("graph", "写"), ("ject", "投掷"),
     ("jud", "判断"), ("lect", "选择"), ("log", "说话，学问"), ("luc", "光"),
     ("man", "手"), ("mit", "送"), ("mov", "移动"), ("path", "感情，疾病"),
     ("ped", "脚"), ("phon", "声音"), ("port", "带来"), ("pos", "放置"),
     ("press", "压"), ("psych", "心理"), ("rupt", "破裂"), ("scrib", "写"),
     ("sect", "切"), ("sent", "感觉"), ("solut", "松开"), ("solv", "解决"),
     ("spect", "看"), ("struct", "建造"), ("tact", "接触"), ("ten", "拿，持"),
     ("tract", "拉"), ("ven", "来"), ("vers", "转"), ("vid", "看"),
     ("vis", "看"), ("voc", "声音，叫")])

  // ---------------------------------------------------------------------
  // Frequency counters

  /** `rootFrequency[key]`, a missing key counting as 0. */
  function Count(f: Frequencies, key: string): int
  {
    match Get(f, key)
    case Some(n) => n
    case None => 0
  }

  /**
   * One `updateRootFrequency`: the key's count goes up by one, a new key is
   * appended with count 1, every other count stays.
   */
  function Bump(f: Frequencies, key: string): (r: Frequencies)
    ensures Count(r, key) == Count(f, key) + 1
    ensures forall k :: k != key ==> Count(r, k) == Count(f, k)
    ensures key in Keys(f) ==> Keys(r) == Keys(f)
    ensures key !in Keys(f) ==> Keys(r) == Keys(f) + [key]
  {
    SetEntry(f, key, Count(f, key) + 1)
  }

  /** The counters after bumping every key of `ks`, in order. */
  function BumpAll(f: Frequencies, ks: seq<string>): Frequencies
  {
    if ks == [] then f else Bump(BumpAll(f, ks[..|ks| - 1]), ks[|ks| - 1])
  }

  /** Raising the counts of a single key is one `Bump`. */
  lemma BumpAllOne(f: Frequencies, key: string)
    ensures BumpAll(f, [key]) == Bump(f, key)
  {
    assert [key][..0] == [];
  }

  lemma {:induction false} BumpAllAppend(f: Frequencies, ks: seq<string>, more: seq<string>)
    ensures BumpAll(f, ks + more) == BumpAll(BumpAll(f, ks), more)
  {
    if more == [] {
      assert ks + more == ks;
    } else {
      var init := more[..|more| - 1];
      assert (ks + more)[..|ks + more| - 1] == ks + init;
      BumpAllAppend(f, ks, init);
    }
  }

  /** Bumping a list of keys raises each count by the number of times its key is listed. */
  lemma {:induction false} BumpAllCount(f: Frequencies, ks: seq<string>, k: string)
    ensures Count(BumpAll(f, ks), k) == Count(f, k) + multiset(ks)[k]
  {
    if ks != [] {
      var init := ks[..|ks| - 1];
      assert ks == init + [ks[|ks| - 1]];
      BumpAllCount(f, init, k);
    }
  }

  // ---------------------------------------------------------------------
  // Root search, similar words and root inference

  /**
   * `i` is the entry `findBestRootMatch` picks: a non-empty root occurring
   * in `stem`, no shorter than any other occurring root and strictly longer
   * than every occurring root listed before it.
   */
  ghost predicate IsLongestRoot(roots: Glossary, stem: string, i: int)
  {
    0 <= i < |roots| && roots[i].0 != [] && Contains(stem, roots[i].0)
    && (forall j :: 0 <= j < |roots| && Contains(stem, roots[j].0) ==> |roots[j].0| <= |roots[i].0|)
    && (forall j :: 0 <= j < i && Contains(stem, roots[j].0) ==> |roots[j].0| < |roots[i].0|)
  }

  /** The result of `findBestRootMatch` on table `roots`. */
  function BestRootMatch(roots: Glossary, stem: string): (r: Option<Component>)
    ensures r.None? <==> forall j :: 0 <= j < |roots| && Contains(stem, roots[j].0) ==> roots[j].0 == []
    ensures r.Some? ==> exists i :: IsLongestRoot(roots, stem, i) && r.value == Component(roots[i].0, roots[i].1)
  {
    match LongestRoot(roots, stem)
    case None => None
    case Some(i) =>
      assert IsLongestRoot(roots, stem, i);
      Some(Component(roots[i].0, roots[i].1))
  }

  /** A database word counts as similar to `root` when it contains it and is not equal to it. */
  predicate IsSimilar(word: string, root: string)
  {
    Contains(word, root) && word != root
  }

  /** The similar entries among the first `n` of `db`, in table order. */
  function SimilarIn(db: WordDatabase, root: string, n: nat): (r: WordDatabase)
    requires n <= |db|
    ensures |r| <= n
    ensures forall e {:trigger e in r} :: e in r <==> e in db[..n] && IsSimilar(e.0, root)
  {
    if n == 0 then []
    else
      assert db[..n] == db[..n - 1] + [db[n - 1]];
      SimilarIn(db, root, n - 1) + (if IsSimilar(db[n - 1].0, root) then [db[n - 1]] else [])
  }

  /** Only the first `n` entries of the database decide the similar entries among them. */
  lemma {:induction false} SimilarInPrefix(db: WordDatabase, other: WordDatabase, root: string, n: nat)
    requires n <= |db| && n <= |other| && db[..n] == other[..n]
    ensures SimilarIn(db, root, n) == SimilarIn(other, root, n)
  {
    if n > 0 {
      assert db[..n - 1] == db[..n][..n - 1] && other[..n - 1] == other[..n][..n - 1];
      assert db[n - 1] == db[..n][n - 1] && other[n - 1] == other[..n][n - 1];
      SimilarInPrefix(db, other, root, n - 1);
    }
  }

  /**
   * The similar entries of two joined databases are those of the first
   * followed by those of the second: with `SimilarInOne`, they are the
   * similar entries of the database in database order, each as often as it
   * is listed.
   */
  lemma SimilarInAppend(a: WordDatabase, b: WordDatabase, root: string)
    ensures SimilarIn(a + b, root, |a + b|) == SimilarIn(a, root, |a|) + SimilarIn(b, root, |b|)
  {
    SimilarInJoin(a, b, root, |b|);
  }

  /** `SimilarInAppend` over the first `k` entries of `b`. */
  lemma {:induction false} SimilarInJoin(a: WordDatabase, b: WordDatabase, root: string, k: nat)
    requires k <= |b|
    ensures SimilarIn(a + b, root, |a| + k) == SimilarIn(a, root, |a|) + SimilarIn(b, root, k)
  {
    var left := SimilarIn(a, root, |a|);
    if k == 0 {
      assert SimilarIn(a + b, root, |a|) == left by {
        assert (a + b)[..|a|] == a[..|a|];
        SimilarInPrefix(a + b, a, root, |a|);
      }
    } else {
      var e := b[k - 1];
      var tail := if IsSimilar(e.0, root) then [e] else [];
      var joined, right := SimilarIn(a + b, root, |a| + k - 1), SimilarIn(b, root, k - 1);
      assert SimilarIn(a + b, root, |a| + k) == joined + tail by {
        SimilarInLast(a + b, root, |a| + k);
        assert (a + b)[|a| + k - 1] == e;
      }
      assert SimilarIn(b, root, k) == right + tail by {
        SimilarInLast(b, root, k);
      }
      assert joined == left + right by {
        SimilarInJoin(a, b, root, k - 1);
      }
      ConcatAssoc(left, right, tail);
    }
  }

  /** One step of `SimilarIn`: the `n`-th entry joins the end when it is similar. */
  lemma SimilarInLast(db: WordDatabase, root: string, n: nat)
    requires 0 < n <= |db|
    ensures SimilarIn(db, root, n) == SimilarIn(db, root, n - 1) + (if IsSimilar(db[n - 1].0, root) then [db[n - 1]] else [])
  {
  }

  /** A one-entry database keeps its entry exactly when it is similar. */
  lemma SimilarInOne(e: (string, DictEntry), root: string)
    ensures SimilarIn([e], root, 1) == if IsSimilar(e.0, root) then [e] else []
  {
  }

  /** Some entry of `similar` has a non-empty gloss. */
  predicate HasGloss(similar: WordDatabase)
  {
    exists i :: 0 <= i < |similar| && similar[i].1.gloss != []
  }

  /** The glosses of `similar` that are not empty (`map(w => w.data.gloss || '').filter(m => m)`). */
  function NonEmptyGlosses(similar: WordDatabase): (r: seq<string>)
    ensures forall k :: 0 <= k < |r| ==> r[k] != []
    ensures |r| > 0 <==> HasGloss(similar)
  {
    if similar == [] then []
    else
      var rest := NonEmptyGlosses(similar[1..]);
      assert forall i :: 1 <= i < |similar| ==> similar[i] == similar[1..][i - 1];
      (if similar[0].1.gloss != [] then [similar[0].1.gloss] else []) + rest
  }

  /** `extractCommonMeaning`: a fixed gloss when any similar word has one. */
  function ExtractCommonMeaning(similar: WordDatabase): (r: Option<string>)
    ensures r.Some? <==> HasGloss(similar)
    ensures r.Some? ==> r.value == RelatedGloss
  {
    var meanings := NonEmptyGlosses(similar);
    if |meanings| > 0 then Some(RelatedGloss) else None
  }

  /**
   * The component `inferRoot` builds for an unmatched stem.  A word with
   * corrections yields a component with no meaning: the per-word record is
   * keyed by root index, so its `meaning` property is always undefined.
   */
  function InferredRoot(corrections: Corrections, db: WordDatabase, remaining: string, word: string): (c: Component)
    ensures c.root == remaining
    ensures c.Unglossed? <==> word in corrections
    ensures c.Component? ==> (c.meaning == RelatedGloss <==> HasGloss(Take(SimilarIn(db, remaining, |db|), 5)))
    ensures c.Component? ==> c.meaning == RelatedGloss || c.meaning == InferredGloss
  {
    if word in corrections then Unglossed(remaining)
    else
      var similar := Take(SimilarIn(db, remaining, |db|), 5);
      var common := ExtractCommonMeaning(similar);
      assert InferredGloss != RelatedGloss by { assert |InferredGloss| == 2 && |RelatedGloss| == 4; }
      if |similar| > 0 && common.Some? then Component(remaining, common.value)
      else Component(remaining, InferredGloss)
  }

  // ---------------------------------------------------------------------
  // analyzeWordRoots as a function of its inputs

  /** What `analyzeWordRoots` returns, and the keys it counts, in counting order. */
  datatype Analysis = Analysis(components: seq<Component>, counted: seq<string>)

  /** The lower-cased word after the prefix and the suffix step. */
  function StemOf(p: Patterns, lower: string): string
  {
    StripFirst(Back, p.suffixes, StripFirst(Front, p.prefixes, lower).1).1
  }

  /** The middle component: the longest table root, else an inferred one; none for an empty stem. */
  function MiddlePart(p: Patterns, corrections: Corrections, db: WordDatabase, stem: string, word: string): seq<Component>
  {
    if stem == [] then []
    else match BestRootMatch(p.roots, stem)
      case Some(c) => [c]
      case None => [InferredRoot(corrections, db, stem, word)]
  }

  /** The key of the middle component when it came from the root table. */
  function MiddleKey(p: Patterns, stem: string): seq<string>
  {
    if stem == [] then []
    else match BestRootMatch(p.roots, stem)
      case Some(c) => [c.root]
      case None => []
  }

  /** `analyzeWordRoots(word)` against tables `p`, corrections and word database `db`. */
  function WordRoots(p: Patterns, corrections: Corrections, db: WordDatabase, word: string): (a: Analysis)
    ensures 1 <= |a.components| <= 3
    ensures |a.counted| <= |a.components|
  {
    var lower := ToLower(word);
    if lower == "asparagus" then Analysis(AsparagusParts, [])
    else TableAnalysis(p, corrections, db, lower, word)
  }

  /** The table-driven part of `analyzeWordRoots`, on the lower-cased word. */
  function TableAnalysis(p: Patterns, corrections: Corrections, db: WordDatabase, lower: string, word: string): (a: Analysis)
    ensures 1 <= |a.components| <= 3
    ensures |a.counted| <= |a.components|
  {
    var pre := StripFirst(Front, p.prefixes, lower);
    var suf := StripFirst(Back, p.suffixes, pre.1);
    var stem := suf.1;
    var components := EntryPart(p.prefixes, pre.0) + MiddlePart(p, corrections, db, stem, word) + EntryPart(p.suffixes, suf.0);
    var counted := EntryKey(p.prefixes, pre.0) + EntryKey(p.suffixes, suf.0) + MiddleKey(p, stem);
    Analysis(if components == [] then [Component(word, UnknownGloss)] else components, counted)
  }

  /** "asparagus", in any letter case, gets its fixed parts and counts nothing. */
  lemma WordRootsAsparagus(p: Patterns, corrections: Corrections, db: WordDatabase, word: string)
    requires ToLower(word) == "asparagus"
    ensures WordRoots(p, corrections, db, word) == Analysis(AsparagusParts, [])
  {
  }

  /**
   * The shape of an analysis: a stripped prefix comes first, a stripped
   * suffix last, and the fallback entry appears only for the empty word.
   */
  lemma TableAnalysisShape(p: Patterns, corrections: Corrections, db: WordDatabase, lower: string, word: string)
    ensures var a := TableAnalysis(p, corrections, db, lower, word);
            var pre := FirstAffix(Front, p.prefixes, lower);
            pre.Some? ==> a.components[0] == Component(p.prefixes[pre.value].0, p.prefixes[pre.value].1)
    ensures var a := TableAnalysis(p, corrections, db, lower, word);
            var suf := FirstAffix(Back, p.suffixes, StripFirst(Front, p.prefixes, lower).1);
            suf.Some? ==> a.components[|a.components| - 1] == Component(p.suffixes[suf.value].0, p.suffixes[suf.value].1)
    ensures lower == [] <==> StemOf(p, lower) == []
    ensures lower == [] ==> TableAnalysis(p, corrections, db, lower, word).components == [Component(word, UnknownGloss)]
  {
    var pre := StripFirst(Front, p.prefixes, lower);
    var suf := StripFirst(Back, p.suffixes, pre.1);
    assert suf.1 != [] <==> lower != [];
  }

  /**
   * What the counters learn from one analysis: the stripped prefix, the
   * stripped suffix and the matched table root, and never an inferred root.
   */
  lemma TableAnalysisCounted(p: Patterns, corrections: Corrections, db: WordDatabase, lower: string, word: string)
    ensures var a := TableAnalysis(p, corrections, db, lower, word);
            var stem := StemOf(p, lower);
            && (BestRootMatch(p.roots, stem).Some? ==> |a.counted| == |a.components|)
            && (BestRootMatch(p.roots, stem).None? ==> |a.counted| == |a.components| - 1)
  {
    var pre := StripFirst(Front, p.prefixes, lower);
    var suf := StripFirst(Back, p.suffixes, pre.1);
    if suf.1 == [] {
      assert lower == [];
      NothingOccursInEmpty(p.roots);
    }
  }

  /** Every counted key is the text of a returned component. */
  lemma TableAnalysisCountsComponents(p: Patterns, corrections: Corrections, db: WordDatabase, lower: string, word: string)
    ensures var a := TableAnalysis(p, corrections, db, lower, word);
            multiset(a.counted) <= multiset(Roots(a.components))
  {
    var a := TableAnalysis(p, corrections, db, lower, word);
    var pre := StripFirst(Front, p.prefixes, lower);
    var suf := StripFirst(Back, p.suffixes, pre.1);
    var stem := suf.1;
    var pk, mk, sk := EntryKey(p.prefixes, pre.0), MiddleKey(p, stem), EntryKey(p.suffixes, suf.0);
    var pp, mp, sp := EntryPart(p.prefixes, pre.0), MiddlePart(p, corrections, db, stem, word), EntryPart(p.suffixes, suf.0);
    assert a.counted == pk + sk + mk;
    if stem != [] {
      assert |mp| == 1;
      assert a.components == pp + mp + sp;
      CountedParts(pk, mk, sk, pp, mp, sp);
    } else {
      assert pre.0.None? && suf.0.None?;
      assert a.counted == [];
    }
  }

  /**
   * For a non-empty word the components are the assembled ones, with no
   * fallback entry: the middle one, right after a stripped prefix, is the
   * longest table root when one occurs in the stem and the inferred root
   * otherwise, and only a stripped suffix follows it.
   */
  lemma TableAnalysisMiddle(p: Patterns, corrections: Corrections, db: WordDatabase, lower: string, word: string)
    requires lower != []
    ensures var a := TableAnalysis(p, corrections, db, lower, word);
            var stem := StemOf(p, lower);
            var i := if FirstAffix(Front, p.prefixes, lower).Some? then 1 else 0;
            var j := if FirstAffix(Back, p.suffixes, StripFirst(Front, p.prefixes, lower).1).Some? then 1 else 0;
            && |a.components| == i + 1 + j
            && a.components[i] == (match BestRootMatch(p.roots, stem)
                                   case Some(c) => c
                                   case None => InferredRoot(corrections, db, stem, word))
  {
    var pre := StripFirst(Front, p.prefixes, lower);
    var suf := StripFirst(Back, p.suffixes, pre.1);
    var stem := suf.1;
    assert stem != [] by {
      TableAnalysisShape(p, corrections, db, lower, word);
    }
    var pp, mp, sp := EntryPart(p.prefixes, pre.0), MiddlePart(p, corrections, db, stem, word), EntryPart(p.suffixes, suf.0);
    assert |mp| == 1;
    assert TableAnalysis(p, corrections, db, lower, word).components == pp + mp + sp;
    assert (pp + mp + sp)[|pp|] == mp[0];
  }

  /**
   * For a non-empty word, the counted keys are the texts of all returned
   * components except an inferred root, whose text is the stem: the prefix
   * and the suffix are always counted, the root only when the table has it.
   */
  lemma TableAnalysisUncounted(p: Patterns, corrections: Corrections, db: WordDatabase, lower: string, word: string)
    requires lower != []
    ensures var a := TableAnalysis(p, corrections, db, lower, word);
            var stem := StemOf(p, lower);
            multiset(a.counted) + (if BestRootMatch(p.roots, stem).None? then multiset{stem} else multiset{})
              == multiset(Roots(a.components))
  {
    var a := TableAnalysis(p, corrections, db, lower, word);
    var pre := StripFirst(Front, p.prefixes, lower);
    var suf := StripFirst(Back, p.suffixes, pre.1);
    var stem := suf.1;
    assert stem != [] by {
      TableAnalysisShape(p, corrections, db, lower, word);
    }
    var pk, mk, sk := EntryKey(p.prefixes, pre.0), MiddleKey(p, stem), EntryKey(p.suffixes, suf.0);
    var pp, mp, sp := EntryPart(p.prefixes, pre.0), MiddlePart(p, corrections, db, stem, word), EntryPart(p.suffixes, suf.0);
    var extra := if BestRootMatch(p.roots, stem).None? then [stem] else [];
    assert Roots(mp) == mk + extra by {
      MiddleRoots(p, corrections, db, stem, word);
    }
    assert a.counted == pk + sk + mk && a.components == pp + mp + sp;
    CountedPartsExact(pk, mk, sk, extra, pp, mp, sp);
  }

  /** The text of the middle component is counted when it came from the table; otherwise it is the uncounted stem. */
  lemma MiddleRoots(p: Patterns, corrections: Corrections, db: WordDatabase, stem: string, word: string)
    requires stem != []
    ensures Roots(MiddlePart(p, corrections, db, stem, word))
              == MiddleKey(p, stem) + (if BestRootMatch(p.roots, stem).None? then [stem] else [])
  {
  }

  /** No non-empty root occurs in the empty stem. */
  lemma NothingOccursInEmpty(roots: Glossary)
    ensures BestRootMatch(roots, []).None?
  {
    forall j | 0 <= j < |roots| && Contains([], roots[j].0) ensures roots[j].0 == [] {
      var k := IndexOf([], roots[j].0).value;
      assert OccursAt([], roots[j].0, k);
    }
  }

  /**
   * The counted keys are the prefix, suffix and (when table-drawn) middle
   * texts, taken in counting order rather than component order.
   */
  lemma CountedParts(pk: seq<string>, mk: seq<string>, sk: seq<string>,
                     pp: seq<Component>, mp: seq<Component>, sp: seq<Component>)
    requires Roots(pp) == pk && Roots(sp) == sk
    requires mk == [] || Roots(mp) == mk
    ensures multiset(pk + sk + mk) <= multiset(Roots(pp + mp + sp))
  {
    RootsAppend(pp, mp);
    RootsAppend(pp + mp, sp);
  }

  /** With the uncounted middle texts `extra` added back, the counted keys are exactly the component texts. */
  lemma CountedPartsExact(pk: seq<string>, mk: seq<string>, sk: seq<string>, extra: seq<string>,
                          pp: seq<Component>, mp: seq<Component>, sp: seq<Component>)
    requires Roots(pp) == pk && Roots(sp) == sk && Roots(mp) == mk + extra
    ensures multiset(pk + sk + mk) + multiset(extra) == multiset(Roots(pp + mp + sp))
  {
    RootsAppend(pp, mp);
    RootsAppend(pp + mp, sp);
  }

  /** The texts of a list of components. */
  function Roots(cs: seq<Component>): (r: seq<string>)
    ensures |r| == |cs| && forall k :: 0 <= k < |cs| ==> r[k] == cs[k].root
  {
    seq(|cs|, k requires 0 <= k < |cs| => cs[k].root)
  }

  lemma RootsAppend(a: seq<Component>, b: seq<Component>)
    ensures Roots(a + b) == Roots(a) + Roots(b)
  {
  }

  // ---------------------------------------------------------------------
  // Learning statistics

  /** The distinct words of a search history. */
  function Words(h: seq<SearchEntry>): (r: set<string>)
    ensures |r| <= |h|
    ensures forall w :: w in r <==> exists i :: 0 <= i < |h| && h[i].word == w
  {
    if h == [] then {}
    else
      var init := h[..|h| - 1];
      assert forall i :: 0 <= i < |init| ==> init[i] == h[i];
      Words(init) + {h[|h| - 1].word}
  }

  /** Counts never increase along the list. */
  ghost predicate SortedDesc(s: Frequencies)
  {
    forall i, j :: 0 <= i < j < |s| ==> s[i].1 >= s[j].1
  }

  /**
   * Inserts `x` before the first entry with a smaller count, so it lands
   * after every entry with an equal count.
   */
  function InsertDesc(x: (string, int), t: Frequencies): (r: Frequencies)
    ensures multiset(r) == multiset(t) + multiset{x}
    ensures |r| == |t| + 1 && (r[0] == x || (t != [] && r[0] == t[0]))
  {
    if t == [] then [x]
    else if t[0].1 < x.1 then [x] + t
    else
      assert t == [t[0]] + t[1..];
      [t[0]] + InsertDesc(x, t[1..])
  }

  /** Insertion keeps a list sorted. */
  lemma {:induction false} InsertDescSorted(x: (string, int), t: Frequencies)
    requires SortedDesc(t)
    ensures SortedDesc(InsertDesc(x, t))
  {
    if t != [] && t[0].1 >= x.1 {
      var rest := InsertDesc(x, t[1..]);
      InsertDescSorted(x, t[1..]);
      assert rest[0] == x || rest[0] == t[1..][0];
      assert InsertDesc(x, t) == [t[0]] + rest;
    }
  }

  /**
   * The stable descending sort by count that `sort(([,a], [,b]) => b - a)`
   * performs, as an insertion sort in original order.
   */
  function SortDesc(s: Frequencies): (r: Frequencies)
    ensures multiset(r) == multiset(s)
    ensures SortedDesc(r)
  {
    if s == [] then []
    else
      var init := s[..|s| - 1];
      assert s == init + [s[|s| - 1]];
      InsertDescSorted(s[|s| - 1], SortDesc(init));
      InsertDesc(s[|s| - 1], SortDesc(init))
  }

  /** The entries of `s` with count `c`, in order. */
  function WithCount(s: Frequencies, c: int): Frequencies
  {
    if s == [] then [] else (if s[0].1 == c then [s[0]] else []) + WithCount(s[1..], c)
  }

  lemma {:induction false} WithCountAppend(a: Frequencies, b: Frequencies, c: int)
    ensures WithCount(a + b, c) == WithCount(a, c) + WithCount(b, c)
  {
    if a == [] {
      assert a + b == b;
    } else {
      var head := if a[0].1 == c then [a[0]] else [];
      assert (a + b)[1..] == a[1..] + b;
      assert WithCount(a + b, c) == head + WithCount(a[1..] + b, c);
      WithCountAppend(a[1..], b, c);
      assert WithCount(a, c) == head + WithCount(a[1..], c);
      assert head + (WithCount(a[1..], c) + WithCount(b, c)) == (head + WithCount(a[1..], c)) + WithCount(b, c);
    }
  }

  lemma WithCountCons(a: (string, int), t: Frequencies, c: int)
    ensures WithCount([a] + t, c) == (if a.1 == c then [a] else []) + WithCount(t, c)
  {
    assert ([a] + t)[1..] == t;
  }

  lemma {:induction false} WithCountNone(t: Frequencies, c: int)
    requires forall e :: e in t ==> e.1 != c
    ensures WithCount(t, c) == []
  {
    if t != [] {
      assert t[0] in t;
      assert forall e :: e in t[1..] ==> e in t;
      WithCountNone(t[1..], c);
    }
  }

  /** No entry of a sorted list headed by a count below `c` has count `c`. */
  lemma BelowHead(t: Frequencies, c: int)
    requires SortedDesc(t) && t != [] && t[0].1 < c
    ensures WithCount(t, c) == []
  {
    forall e | e in t ensures e.1 != c {
      var j :| 0 <= j < |t| && t[j] == e;
      assert t[0].1 >= t[j].1;
    }
    WithCountNone(t, c);
  }

  lemma {:induction false} InsertDescStable(x: (string, int), t: Frequencies, c: int)
    requires SortedDesc(t)
    ensures WithCount(InsertDesc(x, t), c) == WithCount(t, c) + (if x.1 == c then [x] else [])
  {
    if t == [] {
      WithCountCons(x, [], c);
    } else if t[0].1 < x.1 {
      if x.1 == c {
        BelowHead(t, c);
      }
      WithCountCons(x, t, c);
    } else {
      InsertDescStable(x, t[1..], c);
      InsertDescStep(x, t, c);
    }
  }

  lemma InsertDescStep(x: (string, int), t: Frequencies, c: int)
    requires t != [] && t[0].1 >= x.1
    requires WithCount(InsertDesc(x, t[1..]), c) == WithCount(t[1..], c) + (if x.1 == c then [x] else [])
    ensures WithCount(InsertDesc(x, t), c) == WithCount(t, c) + (if x.1 == c then [x] else [])
  {
    var rest := InsertDesc(x, t[1..]);
    var head := if t[0].1 == c then [t[0]] else [];
    assert InsertDesc(x, t) == [t[0]] + rest;
    WithCountCons(t[0], rest, c);
    assert WithCount(t, c) == head + WithCount(t[1..], c);
    ConcatAssoc(head, WithCount(t[1..], c), if x.1 == c then [x] else []);
  }

  lemma ConcatAssoc<T>(a: seq<T>, b: seq<T>, c: seq<T>)
    ensures a + (b + c) == (a + b) + c
  {
  }

  /** The sort is stable: entries with equal counts keep their relative order. */
  lemma {:induction false} SortDescStable(s: Frequencies, c: int)
    ensures WithCount(SortDesc(s), c) == WithCount(s, c)
  {
    if s != [] {
      var init := s[..|s| - 1];
      var last := s[|s| - 1];
      assert s == init + [last];
      SortDescStable(init, c);
      InsertDescStable(last, SortDesc(init), c);
      WithCountAppend(init, [last], c);
    }
  }

  /** The `getLearningStats` record. */
  datatype Stats = Stats(totalSearches: nat, uniqueWords: nat, topRoots: Frequencies, corrections: nat)

  /** The at most ten most-used keys, ties in insertion order. */
  function TopRoots(f: Frequencies): (r: Frequencies)
    ensures |r| <= 10 && SortedDesc(r)
    ensures |r| == if |f| <= 10 then |f| else 10
    ensures multiset(r) <= multiset(f)
    ensures forall i, e :: 0 <= i < |r| && e in f && e !in r ==> e.1 <= r[i].1
  {
    var sorted := SortDesc(f);
    var top := Take(sorted, 10);
    HeadOfSorted(f, sorted, |top|);
    assert |multiset(sorted)| == |sorted| && |multiset(f)| == |f|;
    top
  }

  /**
   * Ties keep insertion order in the top ten: for every count, the kept
   * entries with that count are the first ones with that count in the
   * counters.
   */
  lemma TopRootsStable(f: Frequencies, c: int)
    ensures var w := WithCount(TopRoots(f), c);
            |w| <= |WithCount(f, c)| && w == WithCount(f, c)[..|w|]
  {
    var sorted := SortDesc(f);
    var top := TopRoots(f);
    assert sorted == top + sorted[|top|..];
    WithCountAppend(top, sorted[|top|..], c);
    SortDescStable(f, c);
  }

  /**
   * The first `n` entries of a sorted permutation of `f` are sorted, come
   * from `f`, and no entry of `f` left out has a larger count.
   */
  lemma HeadOfSorted(f: Frequencies, sorted: Frequencies, n: nat)
    requires multiset(sorted) == multiset(f) && SortedDesc(sorted) && n <= |sorted|
    ensures SortedDesc(sorted[..n])
    ensures multiset(sorted[..n]) <= multiset(f)
    ensures forall i, e :: 0 <= i < n && e in f && e !in sorted[..n] ==> e.1 <= sorted[..n][i].1
  {
    assert sorted == sorted[..n] + sorted[n..];
    forall i, e | 0 <= i < n && e in f && e !in sorted[..n]
      ensures e.1 <= sorted[..n][i].1
    {
      assert e in multiset(sorted);
      var j :| 0 <= j < |sorted| && sorted[j] == e;
      assert n <= j;
      assert sorted[..n][i] == sorted[i];
    }
  }

  // ---------------------------------------------------------------------
  // Import

  /** The fields an imported `learningData` object supplies. */
  datatype LearningDataPatch = LearningDataPatch(
    searchHistory: Option<seq<SearchEntry>>,
    rootFrequency: Option<Frequencies>,
    userCorrections: Option<Corrections>)

  /** The fields an imported `rootPatterns` object supplies. */
  datatype PatternsPatch = PatternsPatch(prefixes: Option<Glossary>, suffixes: Option<Glossary>, roots: Option<Glossary>)

  /** A parsed import file: its `learningData` and `rootPatterns` members, when present. */
  datatype Snapshot = Snapshot(learningData: Option<LearningDataPatch>, rootPatterns: Option<PatternsPatch>)

  function Pick<T>(incoming: Option<T>, current: T): T
  {
    if incoming.Some? then incoming.value else current
  }

  /** `{ ...current, ...patch }` on the learning state. */
  function MergeLearningData(current: LearningData, patch: LearningDataPatch): LearningData
  {
    LearningData(
      Pick(patch.searchHistory, current.searchHistory),
      Pick(patch.rootFrequency, current.rootFrequency),
      Pick(patch.userCorrections, current.userCorrections))
  }

  /** `{ ...current, ...patch }` on the pattern tables. */
  function MergePatterns(current: Patterns, patch: PatternsPatch): Patterns
  {
    Patterns(Pick(patch.prefixes, current.prefixes), Pick(patch.suffixes, current.suffixes), Pick(patch.roots, current.roots))
  }

  /** The `learningData` and `rootPatterns` members of an export file. */
  function Export(d: LearningData, p: Patterns): (s: Snapshot)
    ensures s.learningData.Some? && s.rootPatterns.Some?
  {
    Snapshot(
      Some(LearningDataPatch(Some(d.searchHistory), Some(d.rootFrequency), Some(d.userCorrections))),
      Some(PatternsPatch(Some(p.prefixes), Some(p.suffixes), Some(p.roots))))
  }

  /** Importing an export restores exactly the exported state, whatever the current state is. */
  lemma ImportOfExport(d: LearningData, p: Patterns, current: LearningData, currentPatterns: Patterns)
    ensures MergeLearningData(current, Export(d, p).learningData.value) == d
    ensures MergePatterns(currentPatterns, Export(d, p).rootPatterns.value) == p
  {
  }

  /** Importing the same data twice is the same as importing it once. */
  lemma MergeIdempotent(d: LearningData, patch: LearningDataPatch, p: Patterns, ppatch: PatternsPatch)
    ensures MergeLearningData(MergeLearningData(d, patch), patch) == MergeLearningData(d, patch)
    ensures MergePatterns(MergePatterns(p, ppatch), ppatch) == MergePatterns(p, ppatch)
  {
  }

  // ---------------------------------------------------------------------
  // Corrections feed the root search

  /**
   * After a correction adds or updates `newRoot`, every stem containing it
   * gets a table root at least as long as it.
   */
  lemma {:induction false} CorrectionFeedsRootSearch(roots: Glossary, newRoot: string, newMeaning: string, stem: string)
    requires newRoot != [] && Contains(stem, newRoot)
    ensures var m := BestRootMatch(SetEntry(roots, newRoot, newMeaning), stem);
            m.Some? && |m.value.root| >= |newRoot|
  {
    var r := SetEntry(roots, newRoot, newMeaning);
    assert (newRoot, newMeaning) in r;
    var j :| 0 <= j < |r| && r[j] == (newRoot, newMeaning);
    var m := BestRootMatch(r, stem);
    assert m.Some?;
    var i :| IsLongestRoot(r, stem, i) && m.value == Component(r[i].0, r[i].1);
    assert |r[j].0| <= |r[i].0|;
  }

  // ---------------------------------------------------------------------
  // The dictionary object

  class EnhancedDictionary {
    var learningData: LearningData
    var rootPatterns: Patterns

    /** `new EnhancedDictionary()`: the stored learning state, or an empty one, and the built-in tables. */
    constructor (stored: Option<LearningData>)
      ensures learningData == (if stored.Some? then stored.value else EmptyLearningData)
      ensures rootPatterns == InitialRootPatterns
    {
      learningData := if stored.Some? then stored.value else EmptyLearningData;
      rootPatterns := InitialRootPatterns;
    }

    /** `updateRootFrequency` */
    method UpdateRootFrequency(root: string)
      modifies this
      ensures learningData == old(learningData).(rootFrequency := Bump(old(learningData.rootFrequency), root))
      ensures rootPatterns == old(rootPatterns)
    {
      var f := learningData.rootFrequency;
      learningData := learningData.(rootFrequency := SetEntry(f, root, Count(f, root) + 1));
    }

    /** `findBestRootMatch`: the longest root of the live table occurring in `remaining`. */
    method FindBestRootMatch(remaining: string) returns (bestMatch: Option<Component>)
      ensures bestMatch == BestRootMatch(rootPatterns.roots, remaining)
    {
      var roots := rootPatterns.roots;
      bestMatch := None;
      var bestLength := 0;
      ghost var best: Option<nat> := None;
      var i := 0;
      while i < |roots|
        invariant 0 <= i <= |roots|
        invariant best == LongestRootIn(roots, remaining, i)
        invariant best.Some? ==> best.value < i && bestMatch == Some(Component(roots[best.value].0, roots[best.value].1))
        invariant best.None? ==> bestMatch.None?
        invariant bestLength == if best.Some? then |roots[best.value].0| else 0
      {
        var (root, meaning) := roots[i];
        assert LongestRootIn(roots, remaining, i + 1)
          == if Contains(remaining, root) && |root| > bestLength then Some(i) else best;
        if Contains(remaining, root) && |root| > bestLength {
          bestMatch := Some(Component(root, meaning));
          bestLength := |root|;
          best := Some(i);
        }
        i := i + 1;
      }
      assert best == LongestRoot(roots, remaining);
    }

    /** `findSimilarWords`: the first five database entries similar to `root`. */
    method FindSimilarWords(db: WordDatabase, root: string) returns (similar: WordDatabase)
      ensures similar == Take(SimilarIn(db, root, |db|), 5)
    {
      var all: WordDatabase := [];
      var i := 0;
      while i < |db|
        invariant 0 <= i <= |db|
        invariant all == SimilarIn(db, root, i)
      {
        var (word, data) := db[i];
        if IsSimilar(word, root) {
          all := all + [(word, data)];
        }
        i := i + 1;
      }
      similar := Take(all, 5);
    }

    /** `inferRoot` */
    method InferRoot(db: WordDatabase, remaining: string, originalWord: string) returns (c: Component)
      ensures c == InferredRoot(learningData.userCorrections, db, remaining, originalWord)
    {
      if originalWord in learningData.userCorrections {
        return Unglossed(remaining);
      }
      var similarWords := FindSimilarWords(db, remaining);
      if |similarWords| > 0 {
        var commonMeaning := ExtractCommonMeaning(similarWords);
        return Component(remaining, if commonMeaning.Some? then commonMeaning.value else InferredGloss);
      }
      return Component(remaining, InferredGloss);
    }

    /**
     * `analyzeWordRoots`: records the search, returns the analysis and
     * counts the prefix, suffix and root it took from the tables.
     */
    method AnalyzeWordRoots(db: WordDatabase, word: string, timestamp: int) returns (components: seq<Component>)
      modifies this
      ensures var a := WordRoots(old(rootPatterns), old(learningData.userCorrections), db, word);
              && components == a.components
              && learningData == old(learningData).(
                   searchHistory := old(learningData.searchHistory) + [SearchEntry(word, timestamp)],
                   rootFrequency := BumpAll(old(learningData.rootFrequency), a.counted))
      ensures rootPatterns == old(rootPatterns)
    {
      var remaining := ToLower(word);
      learningData := learningData.(searchHistory := learningData.searchHistory + [SearchEntry(word, timestamp)]);

      if remaining == "asparagus" {
        components := [];
        components := components + [Component("aspar", "芦笋")];
        components := components + [Component("ag", "做，驱动")];
        components := components + [Component("-us", "名词后缀")];
        assert components == AsparagusParts;
        return;
      }

      components := AnalyzeTable(db, remaining, word);
    }

    /**
     * The table-driven part of `analyzeWordRoots` on the lower-cased word:
     * prefix, stem, suffix, counting each table entry it uses, and the
     * unknown-root entry when nothing was found.
     */
    method AnalyzeTable(db: WordDatabase, lower: string, word: string) returns (components: seq<Component>)
      modifies this
      ensures var a := TableAnalysis(old(rootPatterns), old(learningData.userCorrections), db, lower, word);
              && components == a.components
              && learningData == old(learningData).(rootFrequency := BumpAll(old(learningData.rootFrequency), a.counted))
      ensures rootPatterns == old(rootPatterns)
    {
      ghost var f0 := learningData.rootFrequency;
      ghost var p0 := rootPatterns;
      ghost var c0 := learningData.userCorrections;

      var prefixPart, suffixPart, remaining := StripAffixes(lower);
      ghost var pre := StripFirst(Front, p0.prefixes, lower);
      ghost var suf := StripFirst(Back, p0.suffixes, pre.1);
      ghost var counted := EntryKey(p0.prefixes, pre.0) + EntryKey(p0.suffixes, suf.0);

      var rootPart := AnalyzeStem(db, remaining, word);
      BumpAllAppend(f0, counted, MiddleKey(p0, remaining));
      components := prefixPart + rootPart + suffixPart;

      if |components| == 0 {
        components := components + [Component(word, UnknownGloss)];
      }
      assert TableAnalysis(p0, c0, db, lower, word) == Analysis(components, counted + MiddleKey(p0, remaining));
    }

    /**
     * The affix loops of `analyzeWordRoots`: the first matching prefix,
     * then the first matching suffix of what is left, each counted once.
     */
    method StripAffixes(lower: string) returns (prefixPart: seq<Component>, suffixPart: seq<Component>, remaining: string)
      modifies this
      ensures var pre := StripFirst(Front, old(rootPatterns.prefixes), lower);
              var suf := StripFirst(Back, old(rootPatterns.suffixes), pre.1);
              && prefixPart == EntryPart(old(rootPatterns.prefixes), pre.0)
              && suffixPart == EntryPart(old(rootPatterns.suffixes), suf.0)
              && remaining == suf.1
              && learningData == old(learningData).(rootFrequency := BumpAll(old(learningData.rootFrequency),
                   EntryKey(old(rootPatterns.prefixes), pre.0) + EntryKey(old(rootPatterns.suffixes), suf.0)))
      ensures rootPatterns == old(rootPatterns)
    {
      ghost var f0 := learningData.rootFrequency;
      ghost var p0 := rootPatterns;
      var rest;
      prefixPart, rest := StripAffix(Front, lower);
      ghost var pre := StripFirst(Front, p0.prefixes, lower);
      suffixPart, remaining := StripAffix(Back, rest);
      ghost var suf := StripFirst(Back, p0.suffixes, pre.1);
      BumpAllAppend(f0, EntryKey(p0.prefixes, pre.0), EntryKey(p0.suffixes, suf.0));
    }

    /**
     * The root step of `analyzeWordRoots` on a non-empty stem: the longest
     * table root, counted, or else an inferred root, not counted.
     */
    method AnalyzeStem(db: WordDatabase, remaining: string, word: string) returns (part: seq<Component>)
      modifies this
      ensures part == MiddlePart(old(rootPatterns), old(learningData.userCorrections), db, remaining, word)
      ensures learningData == old(learningData).(
                rootFrequency := BumpAll(old(learningData.rootFrequency), MiddleKey(old(rootPatterns), remaining)))
      ensures rootPatterns == old(rootPatterns)
    {
      part := [];
      if remaining != [] {
        var rootMatch := FindBestRootMatch(remaining);
        if rootMatch.Some? {
          part := part + [rootMatch.value];
          UpdateRootFrequency(rootMatch.value.root);
          assert [rootMatch.value.root][..0] == [];
        } else {
          var inferredRoot := InferRoot(db, remaining, word);
          part := part + [inferredRoot];
        }
      }
    }

    /**
     * One affix loop of `analyzeWordRoots`: strips the first matching entry
     * of the prefix (or suffix) table from `word` and counts it.
     */
    method StripAffix(side: Side, word: string) returns (part: seq<Component>, remaining: string)
      modifies this
      ensures var t := if side == Front then old(rootPatterns.prefixes) else old(rootPatterns.suffixes);
              var s := StripFirst(side, t, word);
              && remaining == s.1 && part == EntryPart(t, s.0)
              && learningData == old(learningData).(rootFrequency := BumpAll(old(learningData.rootFrequency), EntryKey(t, s.0)))
      ensures rootPatterns == old(rootPatterns)
    {
      var t := if side == Front then rootPatterns.prefixes else rootPatterns.suffixes;
      ghost var d0 := learningData;
      part := [];
      remaining := word;
      var found: Option<nat> := None;
      var i := 0;
      while i < |t|
        invariant 0 <= i <= |t|
        invariant forall j :: 0 <= j < i ==> !AffixMatches(side, t[j].0, word)
        invariant part == [] && remaining == word && found.None?
      {
        var (affix, meaning) := t[i];
        if AffixMatches(side, affix, remaining) {
          part := [Component(affix, meaning)];
          found := Some(i);
          remaining := Strip(side, affix, remaining);
          break;
        }
        i := i + 1;
      }
      assert (found, remaining) == StripFirst(side, t, word);
      if found.Some? {
        BumpAllOne(d0.rootFrequency, t[found.value].0);
        UpdateRootFrequency(t[found.value].0);
      }
    }

    /**
     * `correctRoot`: stores the correction under the word and index and
     * writes the root into the live root table.
     */
    method CorrectRoot(word: string, rootIndex: int, newRoot: string, newMeaning: string, timestamp: int)
      modifies this
      ensures word in learningData.userCorrections
      ensures learningData.userCorrections[word] ==
                (if word in old(learningData.userCorrections) then old(learningData.userCorrections[word]) else map[])
                [rootIndex := Correction(newRoot, newMeaning, timestamp)]
      ensures forall w :: w != word ==> (w in learningData.userCorrections <==> w in old(learningData.userCorrections))
      ensures forall w :: w != word && w in learningData.userCorrections ==>
                learningData.userCorrections[w] == old(learningData.userCorrections[w])
      ensures learningData.searchHistory == old(learningData.searchHistory)
      ensures learningData.rootFrequency == old(learningData.rootFrequency)
      ensures rootPatterns == old(rootPatterns).(roots := SetEntry(old(rootPatterns.roots), newRoot, newMeaning))
    {
      if word !in learningData.userCorrections {
        learningData := learningData.(userCorrections := learningData.userCorrections[word := map[]]);
      }
      var byIndex := learningData.userCorrections[word];
      learningData := learningData.(userCorrections :=
        learningData.userCorrections[word := byIndex[rootIndex := Correction(newRoot, newMeaning, timestamp)]]);
      rootPatterns := rootPatterns.(roots := SetEntry(rootPatterns.roots, newRoot, newMeaning));
    }

    /** `getLearningStats` */
    function GetLearningStats(): (s: Stats)
      reads this
      ensures s.totalSearches == |learningData.searchHistory|
      ensures s.uniqueWords == |Words(learningData.searchHistory)| <= s.totalSearches
      ensures s.topRoots == TopRoots(learningData.rootFrequency)
      ensures s.corrections == |learningData.userCorrections.Keys|
    {
      Stats(
        |learningData.searchHistory|,
        |Words(learningData.searchHistory)|,
        TopRoots(learningData.rootFrequency),
        |learningData.userCorrections.Keys|)
    }

    /**
     * The merge step of `importLearningData`: a file that did not parse
     * changes nothing; otherwise each member present in the file replaces
     * the live one.
     */
    method ImportLearningData(data: Option<Snapshot>) returns (ok: bool)
      modifies this
      ensures ok == data.Some?
      ensures !ok ==> learningData == old(learningData) && rootPatterns == old(rootPatterns)
      ensures ok && data.value.learningData.Some? ==>
                learningData == MergeLearningData(old(learningData), data.value.learningData.value)
      ensures ok && data.value.learningData.None? ==> learningData == old(learningData)
      ensures ok && data.value.rootPatterns.Some? ==>
                rootPatterns == MergePatterns(old(rootPatterns), data.value.rootPatterns.value)
      ensures ok && data.value.rootPatterns.None? ==> rootPatterns == old(rootPatterns)
    {
      if data.None? {
        return false;
      }
      var snapshot := data.value;
      if snapshot.learningData.Some? {
        learningData := MergeLearningData(learningData, snapshot.learningData.value);
      }
      if snapshot.rootPatterns.Some? {
        rootPatterns := MergePatterns(rootPatterns, snapshot.rootPatterns.value);
      }
      return true;
    }
  }
}
