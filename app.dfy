/**
 * The page script's logic that does not touch the page: the built-in
 * fallback analyzer `RootAnalyzer.basicAnalyze`, the favourites list kept
 * by `Storage`, the candidate list of `findSimilarWords` and
 * `getSourceLabel`.
 */
module App {
  import opened Wrappers
  import opened Text
  import opened Tables

  /** Gloss of a stem, or of what is left of it, that no table entry explains. */
  const RootGloss: string := "词根"

  /** The tables written inline in `basicAnalyze`. */
  const BasicPatterns: Patterns := Patterns(
    [("un-", "不，非"), ("re-", "再，重新"), ("pre-", "预先，在前"), ("dis-", "不，分离"),
     ("mis-", "错误，坏"), ("over-", "过度，在上"), ("under-", "在下，不足"), ("out-", "超过，向外"),
     ("in-", "在内，向内"), ("ex-", "向外，前任"), ("sub-", "在下，次"), ("super-", "超级，在上"),
     ("inter-", "在...之间"), ("trans-", "穿过，转换"), ("anti-", "反对，抗"), ("pro-", "支持，向前"),
     ("con-", "共同，一起"), ("de-", "去除，向下"), ("auto-", "自动，自己"), ("semi-", "半"),
     ("multi-", "多"), ("mono-", "单一"), ("bi-", "二，双"), ("tri-", "三"), ("micro-", "微小"),
     ("macro-", "宏大"), ("mini-", "小"), ("neo-", "新"), ("ab-", "离开，脱离"), ("ad-", "向，朝"),
     ("com-", "共同"), ("im-", "向内，不"), ("non-", "不，非")],
    [("-tion", "名词后缀"), ("-sion", "名词后缀"), ("-ment", "名词后缀"), ("-ness", "名词后缀"),
     ("-ity", "名词后缀"), ("-ism", "名词后缀"), ("-ist", "表示人"), ("-er", "表示人或物"),
     ("-or", "表示人或物"), ("-able", "能够的"), ("-ible", "能够的"), ("-ful", "充满的"),
     ("-less", "没有的"), ("-ous", "具有...性质"), ("-ic", "...的"), ("-al", "...的"),
     ("-ive", "有...倾向"), ("-ly", "副词后缀"), ("-ize", "使成为"), ("-ate", "动词/形容词后缀"),
     ("-ed", "过去式/形容词"), ("-ing", "进行时/名词"), ("-ent", "形容词后缀"), ("-ant", "形容词后缀")],
    [("act", "做，行动"), ("aud", "听"), ("bio", "生命"), ("cap", "拿，抓"), ("ced", "走"),
     ("cept", "拿，抓"), ("dict", "说"), ("duc", "引导"), ("fac", "做"), ("fer", "带来"),
     ("form", "形状"), ("gen", "产生"), ("graph", "写"), ("ject", "投掷"), ("lect", "选择"),
     ("log", "说话"), ("man", "手"), ("mit", "送"), ("mov", "移动"), ("port", "带来"),
     ("pos", "放置"), ("press", "压"), ("script", "写"), ("sect", "切"), ("spect", "看"),
     ("struct", "建造"), ("tact", "接触"), ("ten", "拿，持"), ("tract", "拉"), ("ven", "来"),
     ("vers", "转"), ("vid", "看"), ("vis", "看"), ("voc", "声音"), ("solut", "松开，解开"),
     ("solv", "松开，解开"), ("lut", "松开"), ("lute", "绝对"), ("put", "思考"), ("comput", "计算"),
     ("beaut", "美丽"), ("ful", "充满"), ("aut", "自己"), ("tom", "切割"), ("mat", "移动，思考")])

  // ---------------------------------------------------------------------
  // basicAnalyze

  /**
   * The root step of `basicAnalyze` on a non-empty stem: the longest table
   * root, followed by the stem with that root's first occurrence cut out
   * when anything is left; or the whole stem when no root occurs.
   */
  function RootParts(roots: Glossary, stem: string): seq<Component>
  {
    match LongestRoot(roots, stem)
    case Some(i) =>
      var leftover := RemoveFirst(stem, roots[i].0);
      [Component(roots[i].0, roots[i].1)] + (if leftover != [] then [Component(leftover, RootGloss)] else [])
    case None => [Component(stem, RootGloss)]
  }

  /** The root step, skipped when prefix and suffix left nothing. */
  function StemParts(roots: Glossary, stem: string): seq<Component>
  {
    if stem != [] then RootParts(roots, stem) else []
  }

  /** `basicAnalyze(word)` against tables `p`. */
  function BasicAnalysis(p: Patterns, word: string): seq<Component>
  {
    var pre := StripFirst(Front, p.prefixes, ToLower(word));
    var suf := StripFirst(Back, p.suffixes, pre.1);
    EntryPart(p.prefixes, pre.0) + StemParts(p.roots, suf.1) + EntryPart(p.suffixes, suf.0)
  }

  /**
   * The layout of the root step, for any stem: the longest root's entry
   * first, then the stem with that root's first occurrence cut out exactly
   * when anything is left; the whole stem alone when no root occurs.
   */
  lemma RootPartsShape(roots: Glossary, stem: string)
    ensures var r := RootParts(roots, stem);
            && 1 <= |r| <= 2
            && (LongestRoot(roots, stem).Some? ==>
                  var i := LongestRoot(roots, stem).value;
                  var leftover := RemoveFirst(stem, roots[i].0);
                  && r[0] == Component(roots[i].0, roots[i].1)
                  && (|r| == 2 <==> leftover != [])
                  && (|r| == 2 ==> r[1] == Component(leftover, RootGloss)))
            && (LongestRoot(roots, stem).None? ==> r == [Component(stem, RootGloss)])
  {
  }

  /**
   * The root step keeps the letters of a hyphen-free stem: the root and the
   * leftover are the stem rearranged.
   */
  lemma RootPartsPermutes(roots: Glossary, stem: string)
    requires NoDash(stem)
    ensures multiset(Surface(RootParts(roots, stem))) == multiset(stem)
  {
    match LongestRoot(roots, stem)
    case Some(i) =>
      var root := roots[i].0;
      var leftover := RemoveFirst(stem, root);
      var k := IndexOf(stem, root).value;
      assert root == stem[k..k + |root|];
      NoDashSlice(stem, k, k + |root|);
      SliceThree(stem, k, k + |root|);
      NoDashConcat(stem[..k], stem[k..k + |root|]);
      NoDashConcat(stem[..k] + stem[k..k + |root|], stem[k + |root|..]);
      assert leftover == stem[..k] + stem[k + |root|..];
      NoDashConcat(stem[..k], stem[k + |root|..]);
      if leftover != [] {
        SurfaceOfTwo(Component(root, roots[i].1), Component(leftover, RootGloss));
      } else {
        SurfaceOfOne(Component(root, roots[i].1));
      }
    case None =>
      SurfaceOfOne(Component(stem, RootGloss));
  }

  /** Without any hyphen, the root step keeps the letters of the stem. */
  lemma StemPartsPermutes(roots: Glossary, stem: string)
    requires NoDash(stem)
    ensures multiset(Surface(StemParts(roots, stem))) == multiset(stem)
  {
    if stem != [] {
      RootPartsPermutes(roots, stem);
    }
  }

  /** One affix step cuts a hyphen-free word into the stripped text and a hyphen-free rest. */
  lemma StripFirstSplit(side: Side, t: Glossary, word: string)
    requires NoDash(word)
    ensures var r := StripFirst(side, t, word);
            && (side == Front ==> EntryText(t, r.0) + r.1 == word)
            && (side == Back ==> r.1 + EntryText(t, r.0) == word)
            && NoDash(r.1)
  {
    var r := StripFirst(side, t, word);
    var c := EntryText(t, r.0);
    if side == Front {
      assert c + r.1 == word;
      NoDashConcat(c, r.1);
    } else {
      assert r.1 + c == word;
      NoDashConcat(r.1, c);
    }
  }

  /**
   * The two affix steps cut a hyphen-free lower-cased word into the
   * stripped prefix text, the stem and the stripped suffix text; the stem
   * is hyphen-free.
   */
  lemma AffixSplit(p: Patterns, lower: string)
    requires NoDash(lower)
    ensures var pre := StripFirst(Front, p.prefixes, lower);
            var suf := StripFirst(Back, p.suffixes, pre.1);
            && lower == EntryText(p.prefixes, pre.0) + suf.1 + EntryText(p.suffixes, suf.0)
            && NoDash(suf.1)
  {
    var pre := StripFirst(Front, p.prefixes, lower);
    StripFirstSplit(Front, p.prefixes, lower);
    StripFirstSplit(Back, p.suffixes, pre.1);
  }

  /**
   * `basicAnalyze` keeps the letters of a hyphen-free word: the clean
   * component texts are the lower-cased word rearranged, so their lengths
   * add up to the word's length.
   */
  lemma BasicAnalysisPermutes(p: Patterns, word: string)
    requires NoDash(word)
    ensures multiset(Surface(BasicAnalysis(p, word))) == multiset(ToLower(word))
    ensures |Surface(BasicAnalysis(p, word))| == |word|
  {
    var pre := StripFirst(Front, p.prefixes, ToLower(word));
    var suf := StripFirst(Back, p.suffixes, pre.1);
    ToLowerKeepsDashes(word);
    AffixSplit(p, ToLower(word));
    StemPartsPermutes(p.roots, suf.1);
    EntrySurface(p.prefixes, pre.0);
    EntrySurface(p.suffixes, suf.0);
    JoinThree(EntryPart(p.prefixes, pre.0), StemParts(p.roots, suf.1), EntryPart(p.suffixes, suf.0),
              EntryText(p.prefixes, pre.0), Surface(StemParts(p.roots, suf.1)), EntryText(p.suffixes, suf.0));
    var s := Surface(BasicAnalysis(p, word));
    assert |multiset(s)| == |s|;
  }

  /** A non-empty word gets one to four components, the empty word none. */
  lemma BasicAnalysisSize(p: Patterns, word: string)
    ensures word == [] ==> BasicAnalysis(p, word) == []
    ensures word != [] ==> 1 <= |BasicAnalysis(p, word)| <= 4
  {
    var lower := ToLower(word);
    var pre := StripFirst(Front, p.prefixes, lower);
    var suf := StripFirst(Back, p.suffixes, pre.1);
    assert suf.1 != [] <==> lower != [];
    if suf.1 != [] {
      assert |RootParts(p.roots, suf.1)| <= 2;
    }
  }

  /**
   * The prefix loop of `basicAnalyze`: the first prefix whose clean form
   * starts the word and is shorter than it, and the rest of the word.
   */
  method FindPrefix(prefixes: Glossary, word: string) returns (found: Option<nat>, remaining: string)
    ensures (found, remaining) == StripFirst(Front, prefixes, word)
  {
    found, remaining := None, word;
    var i := 0;
    while i < |prefixes|
      invariant 0 <= i <= |prefixes|
      invariant forall j :: 0 <= j < i ==> !AffixMatches(Front, prefixes[j].0, word)
      invariant found.None? && remaining == word
    {
      var prefixClean := Clean(prefixes[i].0);
      if StartsWith(remaining, prefixClean) && |remaining| > |prefixClean| {
        found := Some(i);
        remaining := remaining[|prefixClean|..];
        break;
      }
      i := i + 1;
    }
  }

  /**
   * The suffix loop of `basicAnalyze`: the first suffix whose clean form
   * ends the word and is shorter than it, and the rest of the word.
   */
  method FindSuffix(suffixes: Glossary, word: string) returns (found: Option<nat>, remaining: string)
    ensures (found, remaining) == StripFirst(Back, suffixes, word)
  {
    found, remaining := None, word;
    var i := 0;
    while i < |suffixes|
      invariant 0 <= i <= |suffixes|
      invariant forall j :: 0 <= j < i ==> !AffixMatches(Back, suffixes[j].0, word)
      invariant found.None? && remaining == word
    {
      var suffixClean := Clean(suffixes[i].0);
      if EndsWith(remaining, suffixClean) && |remaining| > |suffixClean| {
        found := Some(i);
        remaining := remaining[..|remaining| - |suffixClean|];
        break;
      }
      i := i + 1;
    }
  }

  /**
   * The root loop of `basicAnalyze`: an entry replaces the best match so
   * far when it occurs in the stem and is strictly longer.
   */
  method FindLongestRoot(roots: Glossary, stem: string) returns (best: Option<nat>)
    ensures best == LongestRoot(roots, stem)
  {
    best := None;
    var bestLength := 0;
    var i := 0;
    while i < |roots|
      invariant 0 <= i <= |roots|
      invariant best == LongestRootIn(roots, stem, i)
      invariant bestLength == if best.Some? then |roots[best.value].0| else 0
    {
      var root := roots[i].0;
      if Contains(stem, root) && |root| > bestLength {
        best := Some(i);
        bestLength := |root|;
      }
      i := i + 1;
    }
  }

  /**
   * The root step of `basicAnalyze`: the longest root, then the stem with
   * that root cut out, or the bare stem when no root occurs in it.
   */
  method AnalyzeStem(roots: Glossary, remaining: string) returns (parts: seq<Component>)
    ensures parts == StemParts(roots, remaining)
  {
    parts := [];
    if remaining != [] {
      var best := FindLongestRoot(roots, remaining);
      if best.Some? {
        var (root, meaning) := roots[best.value];
        parts := parts + [Component(root, meaning)];
        var remainingParts := RemoveFirst(remaining, root);
        if remainingParts != [] {
          parts := parts + [Component(remainingParts, RootGloss)];
        }
      } else {
        parts := parts + [Component(remaining, RootGloss)];
      }
    }
  }

  /**
   * `RootAnalyzer.basicAnalyze`: strip the first matching prefix, then the
   * first matching suffix of what remains, then find the longest root in
   * the stem and put what is left of the stem after it.
   */
  method BasicAnalyze(word: string) returns (components: seq<Component>)
    ensures components == BasicAnalysis(BasicPatterns, word)
  {
    var prefixes, suffixes, roots := BasicPatterns.prefixes, BasicPatterns.suffixes, BasicPatterns.roots;
    var pre, rest := FindPrefix(prefixes, ToLower(word));
    components := EntryPart(prefixes, pre);
    var suf, remaining := FindSuffix(suffixes, rest);

    var stemParts := AnalyzeStem(roots, remaining);
    components := components + stemParts;
    components := components + EntryPart(suffixes, suf);
  }

  // ---------------------------------------------------------------------
  // Favourites

  /** `list.filter(w => w !== word)` */
  function Without(list: seq<string>, word: string): (r: seq<string>)
    ensures word !in r
    ensures forall w :: w != word ==> multiset(r)[w] == multiset(list)[w]
  {
    if list == [] then []
    else
      assert list == [list[0]] + list[1..];
      (if list[0] == word then [] else [list[0]]) + Without(list[1..], word)
  }

  /** Filtering distributes over concatenation, so the words kept stay in their relative order. */
  lemma {:induction false} WithoutAppend(a: seq<string>, b: seq<string>, word: string)
    ensures Without(a + b, word) == Without(a, word) + Without(b, word)
  {
    if a == [] {
      assert a + b == b;
    } else {
      var head := if a[0] == word then [] else [a[0]];
      assert (a + b)[1..] == a[1..] + b;
      assert Without(a + b, word) == head + Without(a[1..] + b, word);
      WithoutAppend(a[1..], b, word);
      assert Without(a, word) == head + Without(a[1..], word);
      assert head + (Without(a[1..], word) + Without(b, word)) == (head + Without(a[1..], word)) + Without(b, word);
    }
  }

  /** No word is listed twice. */
  ghost predicate NoDuplicates(list: seq<string>)
  {
    forall w :: multiset(list)[w] <= 1
  }

  /** The favourites list, read from and written back to local storage on every operation. */
  class Storage {
    var favorites: seq<string>

    /** `getFavorites`: the stored list, or an empty one when nothing is stored. */
    constructor (stored: Option<seq<string>>)
      ensures favorites == if stored.Some? then stored.value else []
    {
      favorites := if stored.Some? then stored.value else [];
    }

    /** `addFavorite`: appends a word that is not listed yet. */
    method AddFavorite(word: string)
      modifies this
      ensures word in old(favorites) ==> favorites == old(favorites)
      ensures word !in old(favorites) ==> favorites == old(favorites) + [word]
      ensures IsFavorite(word)
      ensures NoDuplicates(old(favorites)) ==> NoDuplicates(favorites)
    {
      if word !in favorites {
        favorites := favorites + [word];
      }
    }

    /** `removeFavorite`: drops every occurrence of the word. */
    method RemoveFavorite(word: string)
      modifies this
      ensures favorites == Without(old(favorites), word)
      ensures !IsFavorite(word)
      ensures NoDuplicates(old(favorites)) ==> NoDuplicates(favorites)
    {
      var filtered := Without(favorites, word);
      favorites := filtered;
    }

    /** `isFavorite` */
    function IsFavorite(word: string): (r: bool)
      reads this
      ensures r <==> exists i :: 0 <= i < |favorites| && favorites[i] == word
    {
      word in favorites
    }
  }

  // ---------------------------------------------------------------------
  // findSimilarWords

  /** Two different words where one is spelled inside the other. */
  predicate SharesSpelling(w: string, query: string)
  {
    w != query && (Contains(w, query) || Contains(query, w))
  }

  /** The dash-free texts of an entry's components (`r.root.replace(/[-]/g, '')`). */
  function RootTexts(cs: seq<Component>): (r: seq<string>)
    ensures |r| == |cs| && forall k :: 0 <= k < |cs| ==> r[k] == StripDashes(cs[k].root)
  {
    seq(|cs|, k requires 0 <= k < |cs| => StripDashes(cs[k].root))
  }

  /** Some component of `data` has one of the texts in `current`. */
  predicate SharesRoot(data: DictEntry, current: seq<string>)
  {
    exists k :: 0 <= k < |data.roots| && StripDashes(data.roots[k].root) in current
  }

  /** The first pass over `db[..n]`: entries spelled inside the query or containing it. */
  function SpellingPass(db: WordDatabase, query: string, n: nat): WordDatabase
    requires n <= |db|
  {
    if n == 0 then []
    else
      var prev := SpellingPass(db, query, n - 1);
      if SharesSpelling(db[n - 1].0, query) then prev + [db[n - 1]] else prev
  }

  /** The first pass keeps exactly the entries of `db[..n]` that share spelling with the query. */
  lemma {:induction false} SpellingPassMembers(db: WordDatabase, query: string, n: nat)
    requires n <= |db|
    ensures forall e :: e in SpellingPass(db, query, n) <==> e in db[..n] && SharesSpelling(e.0, query)
  {
    if n > 0 {
      SpellingPassMembers(db, query, n - 1);
      assert db[..n] == db[..n - 1] + [db[n - 1]];
    }
  }

  /** The first pass lists no word twice when the database does not. */
  lemma {:induction false} SpellingPassDistinct(db: WordDatabase, query: string, n: nat)
    requires n <= |db| && DistinctKeys(db)
    ensures DistinctKeys(SpellingPass(db, query, n))
  {
    if n > 0 {
      SpellingPassDistinct(db, query, n - 1);
      var prev := SpellingPass(db, query, n - 1);
      if SharesSpelling(db[n - 1].0, query) {
        SpellingPassMembers(db, query, n - 1);
        forall e | e in prev ensures e.0 != db[n - 1].0 {
          var m :| 0 <= m < n - 1 && db[..n - 1][m] == e;
          assert db[m] == e;
        }
      }
    }
  }

  /**
   * The second pass over `db[..n]`, appending to `acc` every other entry
   * that shares a root text with the query's entry and is not listed yet.
   */
  function RootPass(db: WordDatabase, query: string, current: seq<string>, acc: WordDatabase, n: nat): WordDatabase
    requires n <= |db|
  {
    if n == 0 then acc
    else
      var prev := RootPass(db, query, current, acc, n - 1);
      var (w, data) := db[n - 1];
      if w != query && SharesRoot(data, current) && w !in Keys(prev) then prev + [db[n - 1]] else prev
  }

  /**
   * The root pass only appends, and only database entries other than the
   * query that share a root and are not listed yet.
   */
  lemma {:induction false} RootPassAppends(db: WordDatabase, query: string, current: seq<string>, acc: WordDatabase, n: nat)
    requires n <= |db|
    ensures var r := RootPass(db, query, current, acc, n);
            && |acc| <= |r| && r[..|acc|] == acc
            && (forall k :: |acc| <= k < |r| ==>
                  r[k] in db && r[k].0 != query && SharesRoot(r[k].1, current) && r[k].0 !in Keys(acc))
  {
    if n > 0 {
      RootPassAppends(db, query, current, acc, n - 1);
      var prev := RootPass(db, query, current, acc, n - 1);
      assert forall k :: 0 <= k < |acc| ==> prev[k] == acc[k];
    }
  }

  /** The root pass lists no word twice when `acc` does not. */
  lemma {:induction false} RootPassDistinct(db: WordDatabase, query: string, current: seq<string>, acc: WordDatabase, n: nat)
    requires n <= |db| && DistinctKeys(acc)
    ensures DistinctKeys(RootPass(db, query, current, acc, n))
  {
    if n > 0 {
      RootPassDistinct(db, query, current, acc, n - 1);
      var prev := RootPass(db, query, current, acc, n - 1);
      var w := db[n - 1].0;
      if w != query && SharesRoot(db[n - 1].1, current) && w !in Keys(prev) {
        forall i | 0 <= i < |prev| ensures prev[i].0 != w {
          assert prev[i].0 == Keys(prev)[i];
        }
      }
    }
  }

  /** The root pass misses no entry of `db[..n]` that shares a root with the query's entry. */
  lemma {:induction false} RootPassComplete(db: WordDatabase, query: string, current: seq<string>, acc: WordDatabase, n: nat)
    requires n <= |db|
    ensures forall k :: 0 <= k < n && db[k].0 != query && SharesRoot(db[k].1, current)
              ==> db[k].0 in Keys(RootPass(db, query, current, acc, n))
  {
    if n > 0 {
      RootPassComplete(db, query, current, acc, n - 1);
      var prev := RootPass(db, query, current, acc, n - 1);
      var r := RootPass(db, query, current, acc, n);
      var w := db[n - 1].0;
      if w != query && SharesRoot(db[n - 1].1, current) && w !in Keys(prev) {
        assert Keys(r) == Keys(prev) + [w];
      }
    }
  }

  /** No spelling match comes after an entry that is not one. */
  ghost predicate SpellingFirst(r: WordDatabase, query: string)
  {
    forall i, j :: 0 <= i < j < |r| && SharesSpelling(r[j].0, query) ==> SharesSpelling(r[i].0, query)
  }

  /** An entry the root pass adds is never a spelling match: those were all listed by the first pass. */
  lemma RootPassAddsNoSpelling(db: WordDatabase, query: string, current: seq<string>)
    ensures var bySpelling := SpellingPass(db, query, |db|);
            var all := RootPass(db, query, current, bySpelling, |db|);
            forall k :: |bySpelling| <= k < |all| ==> !SharesSpelling(all[k].0, query)
  {
    var bySpelling := SpellingPass(db, query, |db|);
    var all := RootPass(db, query, current, bySpelling, |db|);
    RootPassAppends(db, query, current, bySpelling, |db|);
    SpellingPassMembers(db, query, |db|);
    assert db[..|db|] == db;
  }

  /** Only the first `n` entries of the database decide the first pass over them. */
  lemma {:induction false} SpellingPassPrefix(db: WordDatabase, other: WordDatabase, query: string, n: nat)
    requires n <= |db| && n <= |other| && db[..n] == other[..n]
    ensures SpellingPass(db, query, n) == SpellingPass(other, query, n)
  {
    if n > 0 {
      assert db[..n - 1] == db[..n][..n - 1] && other[..n - 1] == other[..n][..n - 1];
      assert db[n - 1] == db[..n][n - 1] && other[n - 1] == other[..n][n - 1];
      SpellingPassPrefix(db, other, query, n - 1);
    }
  }

  /**
   * The first pass over two joined databases is the pass over the first
   * followed by the pass over the second: with `SpellingPassOne`, the
   * matches keep database order.
   */
  lemma SpellingPassAppend(a: WordDatabase, b: WordDatabase, query: string)
    ensures SpellingPass(a + b, query, |a + b|) == SpellingPass(a, query, |a|) + SpellingPass(b, query, |b|)
  {
    SpellingPassJoin(a, b, query, |b|);
  }

  /** `SpellingPassAppend` over the first `k` entries of `b`. */
  lemma {:induction false} SpellingPassJoin(a: WordDatabase, b: WordDatabase, query: string, k: nat)
    requires k <= |b|
    ensures SpellingPass(a + b, query, |a| + k) == SpellingPass(a, query, |a|) + SpellingPass(b, query, k)
  {
    var left := SpellingPass(a, query, |a|);
    if k == 0 {
      assert SpellingPass(a + b, query, |a|) == left by {
        assert (a + b)[..|a|] == a[..|a|];
        SpellingPassPrefix(a + b, a, query, |a|);
      }
    } else {
      var e := b[k - 1];
      var tail := if SharesSpelling(e.0, query) then [e] else [];
      var joined, right := SpellingPass(a + b, query, |a| + k - 1), SpellingPass(b, query, k - 1);
      assert SpellingPass(a + b, query, |a| + k) == joined + tail by {
        assert (a + b)[|a| + k - 1] == e;
      }
      assert joined == left + right by {
        SpellingPassJoin(a, b, query, k - 1);
      }
      assert (left + right) + tail == left + (right + tail);
    }
  }

  /** A one-entry database passes its entry exactly when it shares spelling with the query. */
  lemma SpellingPassOne(e: (string, DictEntry), query: string)
    ensures SpellingPass([e], query, 1) == if SharesSpelling(e.0, query) then [e] else []
  {
  }

  /** `r` lists entries of `db[..n]` at the strictly increasing positions `pos`. */
  ghost predicate DrawnInOrder(r: WordDatabase, db: WordDatabase, n: nat, pos: seq<int>)
  {
    && n <= |db| && |pos| == |r|
    && (forall i, j :: 0 <= i < j < |pos| ==> pos[i] < pos[j])
    && (forall k :: 0 <= k < |pos| ==> 0 <= pos[k] < n && r[k] == db[pos[k]])
  }

  /** Entries drawn in order from `db[..n - 1]` stay so from `db[..n]`, also with `db[n - 1]` added at the end. */
  lemma DrawnInOrderStep(r: WordDatabase, db: WordDatabase, n: nat, pos: seq<int>)
    requires 0 < n <= |db| && DrawnInOrder(r, db, n - 1, pos)
    ensures DrawnInOrder(r, db, n, pos)
    ensures DrawnInOrder(r + [db[n - 1]], db, n, pos + [n - 1])
  {
  }

  /** The first pass lists its matches in database order. */
  lemma {:induction false} SpellingPassInOrder(db: WordDatabase, query: string, n: nat)
    requires n <= |db|
    ensures exists pos :: DrawnInOrder(SpellingPass(db, query, n), db, n, pos)
  {
    if n == 0 {
      assert SpellingPass(db, query, 0) == [];
      assert DrawnInOrder([], db, 0, []);
    } else {
      SpellingPassInOrder(db, query, n - 1);
      var prev := SpellingPass(db, query, n - 1);
      var pos :| DrawnInOrder(prev, db, n - 1, pos);
      if SharesSpelling(db[n - 1].0, query) {
        assert SpellingPass(db, query, n) == prev + [db[n - 1]];
        DrawnInOrderStep(prev, db, n, pos);
      } else {
        assert SpellingPass(db, query, n) == prev;
        DrawnInOrderStep(prev, db, n, pos);
      }
    }
  }

  /** The entries the root pass appends after `acc` come in database order. */
  lemma {:induction false} RootPassInOrder(db: WordDatabase, query: string, current: seq<string>, acc: WordDatabase, n: nat)
    requires n <= |db|
    ensures var r := RootPass(db, query, current, acc, n);
            |acc| <= |r| && exists pos :: DrawnInOrder(r[|acc|..], db, n, pos)
  {
    RootPassAppends(db, query, current, acc, n);
    if n == 0 {
      assert acc[|acc|..] == [];
      assert DrawnInOrder([], db, 0, []);
    } else {
      RootPassInOrder(db, query, current, acc, n - 1);
      var prev := RootPass(db, query, current, acc, n - 1);
      var r := RootPass(db, query, current, acc, n);
      var pos :| DrawnInOrder(prev[|acc|..], db, n - 1, pos);
      var w := db[n - 1].0;
      if w != query && SharesRoot(db[n - 1].1, current) && w !in Keys(prev) {
        assert r[|acc|..] == prev[|acc|..] + [db[n - 1]] by {
          assert r == prev + [db[n - 1]];
        }
        DrawnInOrderStep(prev[|acc|..], db, n, pos);
      } else {
        assert r == prev;
        DrawnInOrderStep(prev[|acc|..], db, n, pos);
      }
    }
  }

  /** The full candidate list of `findSimilarWords` before it is cut to ten. */
  function Candidates(db: WordDatabase, word: string): (r: WordDatabase)
    ensures forall k :: 0 <= k < |r| ==> r[k] in db && r[k].0 != ToLower(word)
    ensures forall k :: 0 <= k < |r| ==>
              || SharesSpelling(r[k].0, ToLower(word))
              || (Get(db, ToLower(word)).Some? && SharesRoot(r[k].1, RootTexts(Get(db, ToLower(word)).value.roots)))
    ensures SpellingFirst(r, ToLower(word))
    ensures DistinctKeys(db) ==> DistinctKeys(r)
    ensures forall e :: e in db && SharesSpelling(e.0, ToLower(word)) ==> e in r
    ensures Get(db, ToLower(word)).Some? ==>
              forall e :: e in db && e.0 != ToLower(word) && SharesRoot(e.1, RootTexts(Get(db, ToLower(word)).value.roots))
                ==> e.0 in Keys(r)
  {
    var query := ToLower(word);
    var bySpelling := SpellingPass(db, query, |db|);
    SpellingPassMembers(db, query, |db|);
    assert DistinctKeys(db) ==> DistinctKeys(bySpelling) by {
      if DistinctKeys(db) {
        SpellingPassDistinct(db, query, |db|);
      }
    }
    assert db[..|db|] == db;
    match Get(db, query)
    case Some(entry) =>
      var all := RootPass(db, query, RootTexts(entry.roots), bySpelling, |db|);
      RootPassAppends(db, query, RootTexts(entry.roots), bySpelling, |db|);
      RootPassComplete(db, query, RootTexts(entry.roots), bySpelling, |db|);
      assert DistinctKeys(db) ==> DistinctKeys(all) by {
        if DistinctKeys(db) {
          RootPassDistinct(db, query, RootTexts(entry.roots), bySpelling, |db|);
        }
      }
      RootPassAddsNoSpelling(db, query, RootTexts(entry.roots));
      assert forall k :: 0 <= k < |bySpelling| ==> all[k] == bySpelling[k];
      all
    case None => bySpelling
  }

  /**
   * The candidates keep database order within each pass: first the
   * spelling matches, then the shared-root entries, each run at increasing
   * database positions.
   */
  lemma CandidatesInOrder(db: WordDatabase, word: string)
    ensures var r, m := Candidates(db, word), |SpellingPass(db, ToLower(word), |db|)|;
            && m <= |r| && r[..m] == SpellingPass(db, ToLower(word), |db|)
            && (exists pos :: DrawnInOrder(r[..m], db, |db|, pos))
            && (exists pos :: DrawnInOrder(r[m..], db, |db|, pos))
  {
    var query := ToLower(word);
    var bySpelling := SpellingPass(db, query, |db|);
    var r := Candidates(db, word);
    SpellingPassInOrder(db, query, |db|);
    match Get(db, query)
    case Some(entry) =>
      assert r == RootPass(db, query, RootTexts(entry.roots), bySpelling, |db|);
      RootPassAppends(db, query, RootTexts(entry.roots), bySpelling, |db|);
      RootPassInOrder(db, query, RootTexts(entry.roots), bySpelling, |db|);
    case None =>
      assert r == bySpelling;
      assert r[..|r|] == r;
      assert DrawnInOrder(r[|r|..], db, |db|, []);
  }

  /**
   * What `findSimilarWords` shows: at most ten entries, never the query,
   * every one from the database, spelling matches first, and no word twice.
   */
  function SimilarWords(db: WordDatabase, word: string): (r: WordDatabase)
    ensures |r| <= 10
    ensures |r| == if |Candidates(db, word)| <= 10 then |Candidates(db, word)| else 10
    ensures r == Candidates(db, word)[..|r|]
    ensures forall k :: 0 <= k < |r| ==> r[k] in db && r[k].0 != ToLower(word)
    ensures SpellingFirst(r, ToLower(word))
    ensures DistinctKeys(db) ==> DistinctKeys(r)
  {
    var all := Candidates(db, word);
    var r := Take(all, 10);
    assert forall k :: 0 <= k < |r| ==> r[k] == all[k];
    r
  }

  /** The first loop of `findSimilarWords`: every entry spelled inside the query or containing it. */
  method SpellingMatches(db: WordDatabase, wordLower: string) returns (similar: WordDatabase)
    ensures similar == SpellingPass(db, wordLower, |db|)
  {
    similar := [];
    var i := 0;
    while i < |db|
      invariant 0 <= i <= |db|
      invariant similar == SpellingPass(db, wordLower, i)
    {
      var (w, data) := db[i];
      if SharesSpelling(w, wordLower) {
        similar := similar + [(w, data)];
      }
      i := i + 1;
    }
  }

  /**
   * The second loop of `findSimilarWords`: appends every other entry that
   * shares a root text with the query's entry and is not listed yet.
   */
  method RootMatches(db: WordDatabase, wordLower: string, currentRoots: seq<string>, found: WordDatabase)
    returns (similar: WordDatabase)
    ensures similar == RootPass(db, wordLower, currentRoots, found, |db|)
  {
    similar := found;
    var i := 0;
    while i < |db|
      invariant 0 <= i <= |db|
      invariant similar == RootPass(db, wordLower, currentRoots, found, i)
    {
      var (w, data) := db[i];
      if w != wordLower {
        var hasCommonRoot := SharesRoot(data, currentRoots);
        if hasCommonRoot && w !in Keys(similar) {
          similar := similar + [(w, data)];
        }
      }
      i := i + 1;
    }
  }

  /** `findSimilarWords(word)`, the list handed to the display. */
  method FindSimilarWords(db: WordDatabase, word: string) returns (similar: WordDatabase)
    ensures similar == SimilarWords(db, word)
  {
    var wordLower := ToLower(word);
    similar := SpellingMatches(db, wordLower);
    var currentData := Get(db, wordLower);
    if currentData.Some? {
      var currentRoots := RootTexts(currentData.value.roots);
      similar := RootMatches(db, wordLower, currentRoots, similar);
    }
    similar := Take(similar, 10);
  }

  // ---------------------------------------------------------------------
  // getSourceLabel

  /** Display labels of the known result sources. */
  const SourceLabels: Glossary := [
    ("free_dict", "词典API"),
    ("root_analysis", "词根分析"),
    ("root_only", "仅词根"),
    ("offline_analysis", "离线分析")
  ]

  /** `getSourceLabel`: the label of a known source, anything else unchanged. */
  function GetSourceLabel(source: string): (r: string)
    ensures source !in Keys(SourceLabels) ==> r == source
    ensures source in Keys(SourceLabels) ==> (source, r) in SourceLabels
  {
    match Get(SourceLabels, source)
    case Some(text) => if text != [] then text else source
    case None => source
  }
}
