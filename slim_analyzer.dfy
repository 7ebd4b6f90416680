/**
 * The recursive segmentation engine `EnhancedRootAnalyzer`: special words,
 * then at most one prefix and one suffix (first match in table order), then a
 * recursive decomposition of the stem (exact root, compound, first root of
 * length at least 3 found anywhere, midpoint bisection).
 *
 * Its prefix, suffix and root tables are filled by a data file that is not
 * part of this model, so they are parameters here.
 */
module SlimAnalyzer {
  import opened Wrappers
  import opened Text
  import opened Tables

  /** Gloss of a stem the tables do not explain. */
  const RootGloss: string := "词根"
  /** Gloss of each half of a bisected stem. */
  const FragmentGloss: string := "词根片段"

  /** Whole-word overrides, checked before anything else. */
  const SpecialWords: Table<seq<Component>> := [
    ("decipher", [Component("de-", "去除，向下"), Component("cipher", "密码，零")]),
    ("asparagus", [Component("aspar", "芦笋"), Component("ag", "做，驱动"), Component("-us", "名词后缀")]),
    ("misunderstand", [Component("mis-", "错误，坏"), Component("under-", "在...下"), Component("stand", "站立，理解")])
  ]

  /** Stem overrides, checked after an exact root match fails. */
  const Compounds: Table<seq<Component>> := [
    ("understand", [Component("under-", "在...下"), Component("stand", "站立，理解")]),
    ("overcome", [Component("over-", "在...上"), Component("come", "来")]),
    ("withdraw", [Component("with-", "与...一起"), Component("draw", "拉")])
  ]

  /** The result of a successful affix search: the affix component and what is left. */
  datatype AffixResult = AffixResult(component: Component, remaining: string)

  /** `i` is the first entry of `t` whose affix matches `word` on `side`. */
  ghost predicate IsFirstMatch(side: Side, t: Glossary, word: string, i: int)
  {
    0 <= i < |t| && AffixMatches(side, t[i].0, word)
    && forall j :: 0 <= j < i ==> !AffixMatches(side, t[j].0, word)
  }

  /** `analyze`: a special word is returned as listed; every other word is analyzed lower-cased. */
  function Analyze(p: Patterns, word: string): (r: seq<Component>)
    ensures |r| > 0
  {
    var lower := ToLower(word);
    match Get(SpecialWords, lower)
    case Some(parts) =>
      SpecialWordsShape();
      parts
    case None => IntelligentAnalyze(p, lower)
  }

  /** `detectPrefix` */
  function DetectPrefix(prefixes: Glossary, word: string): (r: Option<AffixResult>)
    ensures r.None? <==> forall j :: 0 <= j < |prefixes| ==> !AffixMatches(Front, prefixes[j].0, word)
    ensures r.Some? ==> exists i :: IsFirstMatch(Front, prefixes, word, i)
                                    && r.value.component == Component(prefixes[i].0, prefixes[i].1)
    ensures r.Some? ==> Clean(r.value.component.root) + r.value.remaining == word && r.value.remaining != []
  {
    match FirstAffix(Front, prefixes, word)
    case None => None
    case Some(i) =>
      assert IsFirstMatch(Front, prefixes, word, i);
      Some(AffixResult(Component(prefixes[i].0, prefixes[i].1), Strip(Front, prefixes[i].0, word)))
  }

  /** `detectSuffix` */
  function DetectSuffix(suffixes: Glossary, word: string): (r: Option<AffixResult>)
    ensures r.None? <==> forall j :: 0 <= j < |suffixes| ==> !AffixMatches(Back, suffixes[j].0, word)
    ensures r.Some? ==> exists i :: IsFirstMatch(Back, suffixes, word, i)
                                    && r.value.component == Component(suffixes[i].0, suffixes[i].1)
    ensures r.Some? ==> r.value.remaining + Clean(r.value.component.root) == word && r.value.remaining != []
  {
    match FirstAffix(Back, suffixes, word)
    case None => None
    case Some(i) =>
      assert IsFirstMatch(Back, suffixes, word, i);
      Some(AffixResult(Component(suffixes[i].0, suffixes[i].1), Strip(Back, suffixes[i].0, word)))
  }

  /** What is left of `word` after the prefix step. */
  function AfterPrefix(p: Patterns, word: string): string
  {
    var prefix := DetectPrefix(p.prefixes, word);
    if prefix.Some? then prefix.value.remaining else word
  }

  /** What is left of `word` after the prefix and suffix steps. */
  function Stem(p: Patterns, word: string): string
  {
    var remaining := AfterPrefix(p, word);
    var suffix := DetectSuffix(p.suffixes, remaining);
    if suffix.Some? then suffix.value.remaining else remaining
  }

  /** `intelligentAnalyze` */
  function IntelligentAnalyze(p: Patterns, word: string): (r: seq<Component>)
    ensures |r| > 0
  {
    var prefix := DetectPrefix(p.prefixes, word);
    var suffix := DetectSuffix(p.suffixes, AfterPrefix(p, word));
    var stem := Stem(p, word);
    var components := AffixPart(prefix) + StemPart(p.roots, stem) + AffixPart(suffix);
    if |components| > 0 then components else [Component(word, RootGloss)]
  }

  /** The component of a detected affix, if any. */
  function AffixPart(affix: Option<AffixResult>): seq<Component>
  {
    if affix.Some? then [affix.value.component] else []
  }

  /** The clean text of a detected affix, if any. */
  function AffixText(affix: Option<AffixResult>): string
  {
    if affix.Some? then Clean(affix.value.component.root) else []
  }

  /** The stem step of `intelligentAnalyze`, skipped for an empty stem. */
  function StemPart(roots: Glossary, stem: string): seq<Component>
    decreases |stem|, 2
  {
    if stem != [] then AnalyzeRoot(roots, stem) else []
  }

  /** A root usable for partial matching: at least 3 long and occurring in `word`. */
  predicate PartialMatch(root: string, word: string)
  {
    Contains(word, root) && |root| >= 3
  }

  function FirstPartialRootFrom(roots: Glossary, word: string, k: nat): (r: Option<nat>)
    decreases |roots| - k
    ensures r.Some? ==> k <= r.value < |roots| && PartialMatch(roots[r.value].0, word)
    ensures forall j :: k <= j < |roots| && (r.None? || j < r.value) ==> !PartialMatch(roots[j].0, word)
  {
    if k >= |roots| then None
    else if PartialMatch(roots[k].0, word) then Some(k)
    else FirstPartialRootFrom(roots, word, k + 1)
  }

  /**
   * The partial-match rule: the first table root, in table order, that is at
   * least 3 long and occurs in `word` (not the longest one).
   */
  function FirstPartialRoot(roots: Glossary, word: string): (r: Option<nat>)
    ensures r.Some? ==> r.value < |roots| && PartialMatch(roots[r.value].0, word)
    ensures forall j :: 0 <= j < |roots| && (r.None? || j < r.value) ==> !PartialMatch(roots[j].0, word)
  {
    FirstPartialRootFrom(roots, word, 0)
  }

  /** `analyzeRoot`: the recursive decomposition of a stem. */
  function AnalyzeRoot(roots: Glossary, word: string): (r: seq<Component>)
    decreases |word|, 1
    ensures |r| > 0
    ensures word != [] ==> forall k :: 0 <= k < |r| ==> r[k].root != []
  {
    var exact := Get(roots, word);
    if exact.Some? && exact.value != [] then [Component(word, exact.value)]
    else
      var compound := AnalyzeCompound(word);
      if |compound| > 1 then compound
      else match FirstPartialRoot(roots, word)
        case Some(i) => SplitAround(roots, word, i)
        case None => SyllableSegmentation(word)
  }

  /**
   * The partial-match step: the stem is cut at the first occurrence of root
   * `i`; the text before and the text after it, when not empty, are analyzed
   * recursively, and both are strictly shorter than the stem.
   */
  function SplitAround(roots: Glossary, word: string, i: nat): (r: seq<Component>)
    requires i < |roots| && PartialMatch(roots[i].0, word)
    decreases |word|, 0
    ensures |r| > 0
    ensures forall k :: 0 <= k < |r| ==> r[k].root != []
  {
    var root := roots[i].0;
    var index := IndexOf(word, root).value;
    StemPart(roots, word[..index]) + [Component(root, roots[i].1)] + StemPart(roots, word[index + |root|..])
  }

  /** `analyzeCompound`: a compound's fixed parts, or the word itself as one root. */
  function AnalyzeCompound(word: string): (r: seq<Component>)
    ensures |r| > 0 && forall k :: 0 <= k < |r| ==> (word != [] ==> r[k].root != [])
  {
    CompoundsShape();
    match Get(Compounds, word)
    case Some(parts) => parts
    case None => [Component(word, RootGloss)]
  }

  /**
   * `analyzeCompound` yields more than one component exactly for a listed
   * compound, and its components spell out a hyphen-free word.
   */
  lemma AnalyzeCompoundCovers(word: string)
    ensures |AnalyzeCompound(word)| > 1 <==> word in Keys(Compounds)
    ensures NoDash(word) ==> Surface(AnalyzeCompound(word)) == word
  {
    CompoundsShape();
    if Get(Compounds, word).None? {
      SurfaceOfOne(Component(word, RootGloss));
    } else {
      var i := KeyIndex(Compounds, word).value;
      assert Compounds[i].0 == word;
    }
  }

  /** `syllableSegmentation`: the last resort, a bisection of stems longer than 4. */
  function SyllableSegmentation(word: string): (r: seq<Component>)
    ensures |word| <= 4 ==> r == [Component(word, RootGloss)]
    ensures |word| > 4 ==> |r| == 2 && r[0].root + r[1].root == word
                           && |r[0].root| == |word| / 2 && r[0].root != [] && r[1].root != []
                           && r[0] == Component(r[0].root, FragmentGloss)
                           && r[1] == Component(r[1].root, FragmentGloss)
  {
    if |word| <= 4 then [Component(word, RootGloss)]
    else
      var mid := |word| / 2;
      assert word == word[..mid] + word[mid..];
      [Component(word[..mid], FragmentGloss), Component(word[mid..], FragmentGloss)]
  }

  /**
   * Coverage of the stem decomposition: for a hyphen-free stem, the
   * components' clean texts concatenate to exactly the stem.
   */
  lemma {:induction false} AnalyzeRootCovers(roots: Glossary, word: string)
    requires NoDash(word)
    decreases |word|, 1
    ensures Surface(AnalyzeRoot(roots, word)) == word
  {
    var exact := Get(roots, word);
    if exact.Some? && exact.value != [] {
      SurfaceOfOne(Component(word, exact.value));
    } else if |AnalyzeCompound(word)| > 1 {
      AnalyzeCompoundCovers(word);
    } else if FirstPartialRoot(roots, word).Some? {
      PartialMatchCovers(roots, word, FirstPartialRoot(roots, word).value);
    } else {
      SyllableSegmentationCovers(word);
    }
  }

  /** Coverage in the partial-match case, by the recursive calls on both sides. */
  lemma {:induction false} PartialMatchCovers(roots: Glossary, word: string, i: nat)
    requires NoDash(word)
    requires i < |roots| && PartialMatch(roots[i].0, word)
    decreases |word|, 0
    ensures Surface(SplitAround(roots, word, i)) == word
  {
    var root := roots[i].0;
    var index := IndexOf(word, root).value;
    var head, tail := word[..index], word[index + |root|..];
    var middle := [Component(root, roots[i].1)];
    NoDashSlice(word, 0, index);
    NoDashSlice(word, index + |root|, |word|);
    NoDashSlice(word, index, index + |root|);
    StemPartCovers(roots, head);
    StemPartCovers(roots, tail);
    SurfaceOfOne(middle[0]);
    SliceThree(word, index, index + |root|);
    JoinThree(StemPart(roots, head), middle, StemPart(roots, tail), head, root, tail);
  }

  /** Coverage of the bisection fallback. */
  lemma SyllableSegmentationCovers(word: string)
    requires NoDash(word)
    ensures Surface(SyllableSegmentation(word)) == word
  {
    var r := SyllableSegmentation(word);
    if |word| <= 4 {
      SurfaceOfOne(r[0]);
    } else {
      var mid := |word| / 2;
      NoDashSlice(word, 0, mid);
      NoDashSlice(word, mid, |word|);
      assert r == [r[0], r[1]];
      SurfaceOfTwo(r[0], r[1]);
    }
  }

  /**
   * Coverage of the affix and stem steps: for a hyphen-free word, the
   * components' clean texts concatenate to exactly the word.
   */
  lemma IntelligentAnalyzeCovers(p: Patterns, word: string)
    requires NoDash(word)
    ensures Surface(IntelligentAnalyze(p, word)) == word
  {
    var prefix := DetectPrefix(p.prefixes, word);
    var suffix := DetectSuffix(p.suffixes, AfterPrefix(p, word));
    var stem := Stem(p, word);
    AffixSplit(p, word);
    StemPartCovers(p.roots, stem);
    AffixPartSurface(prefix);
    AffixPartSurface(suffix);
    JoinThree(AffixPart(prefix), StemPart(p.roots, stem), AffixPart(suffix), AffixText(prefix), stem, AffixText(suffix));
    if |AffixPart(prefix) + StemPart(p.roots, stem) + AffixPart(suffix)| == 0 {
      SurfaceOfOne(Component(word, RootGloss));
    }
  }

  /**
   * The affix steps cut a hyphen-free word into the prefix text, the stem
   * and the suffix text; the stem is hyphen-free.
   */
  lemma AffixSplit(p: Patterns, word: string)
    requires NoDash(word)
    ensures word == AffixText(DetectPrefix(p.prefixes, word)) + Stem(p, word)
                    + AffixText(DetectSuffix(p.suffixes, AfterPrefix(p, word)))
    ensures NoDash(Stem(p, word))
  {
    var preText := AffixText(DetectPrefix(p.prefixes, word));
    var stem := Stem(p, word);
    var sufText := AffixText(DetectSuffix(p.suffixes, AfterPrefix(p, word)));
    assert word == preText + stem + sufText;
    NoDashSlice(word, |preText|, |preText| + |stem|);
    assert word[|preText|..|preText| + |stem|] == stem;
  }

  /** A detected affix's component covers its clean text. */
  lemma AffixPartSurface(affix: Option<AffixResult>)
    ensures Surface(AffixPart(affix)) == AffixText(affix)
  {
    if affix.Some? {
      SurfaceOfOne(affix.value.component);
    }
  }

  /** The stem step covers a hyphen-free stem. */
  lemma {:induction false} StemPartCovers(roots: Glossary, stem: string)
    requires NoDash(stem)
    decreases |stem|, 2
    ensures Surface(StemPart(roots, stem)) == stem
  {
    if stem != [] {
      AnalyzeRootCovers(roots, stem);
    }
  }

  /**
   * Coverage of `analyze`: for a word without hyphens, the components' clean
   * texts concatenate to exactly the lower-cased word, special words
   * included.
   */
  lemma AnalyzeCovers(p: Patterns, word: string)
    requires NoDash(word)
    ensures Surface(Analyze(p, word)) == ToLower(word)
  {
    var lower := ToLower(word);
    ToLowerKeepsDashes(word);
    match Get(SpecialWords, lower)
    case Some(parts) =>
      SpecialWordsShape();
      var i := KeyIndex(SpecialWords, lower).value;
      assert SpecialWords[i] == (lower, parts);
    case None =>
      IntelligentAnalyzeCovers(p, lower);
  }

  /**
   * A special word gets exactly its listed parts, whatever the pattern
   * tables hold.
   */
  lemma SpecialWordWins(p: Patterns, q: Patterns, word: string)
    requires ToLower(word) in Keys(SpecialWords)
    ensures Analyze(p, word) == Analyze(q, word) == Get(SpecialWords, ToLower(word)).value
  {
  }

  /**
   * The shape of `intelligentAnalyze`: a stripped prefix comes first, a
   * stripped suffix comes last, and the stem's components sit between them.
   */
  lemma IntelligentAnalyzeShape(p: Patterns, word: string)
    ensures var r := IntelligentAnalyze(p, word);
      var prefix := DetectPrefix(p.prefixes, word);
      var suffix := DetectSuffix(p.suffixes, AfterPrefix(p, word));
      var stem := Stem(p, word);
      && (prefix.Some? ==> r[0] == prefix.value.component)
      && (suffix.Some? ==> r[|r| - 1] == suffix.value.component)
      && (stem != [] ==> r == (if prefix.Some? then [prefix.value.component] else [])
                             + StemPart(p.roots, stem)
                             + (if suffix.Some? then [suffix.value.component] else []))
      && (word != [] ==> stem != [])
  {
  }

  /**
   * The rule order of `analyzeRoot`: an exact root with a gloss wins; then a
   * compound override; only then partial matching, and bisection last.
   */
  lemma AnalyzeRootRuleOrder(roots: Glossary, word: string)
    ensures var r := AnalyzeRoot(roots, word);
      var exact := Get(roots, word);
      var glossed := exact.Some? && exact.value != [];
      && (glossed ==> r == [Component(word, exact.value)])
      && (!glossed && word in Keys(Compounds) ==> r == Get(Compounds, word).value)
      && (!glossed && word !in Keys(Compounds) && FirstPartialRoot(roots, word).Some? ==>
            r == SplitAround(roots, word, FirstPartialRoot(roots, word).value))
      && (!glossed && word !in Keys(Compounds) && FirstPartialRoot(roots, word).None? ==>
            r == SyllableSegmentation(word))
  {
    AnalyzeCompoundCovers(word);
  }

  /**
   * The split of the partial-match step is at the first occurrence of the
   * root, and the matched root is the component right after the text before
   * it.
   */
  lemma SplitAroundShape(roots: Glossary, word: string, i: nat)
    requires i < |roots| && PartialMatch(roots[i].0, word)
    ensures var root := roots[i].0;
      var index := IndexOf(word, root).value;
      var before := StemPart(roots, word[..index]);
      && OccursAt(word, root, index)
      && (forall j :: 0 <= j < index ==> !OccursAt(word, root, j))
      && SplitAround(roots, word, i)[|before|] == Component(root, roots[i].1)
  {
  }

  /** Every special word has parts that spell it out. */
  lemma SpecialWordsShape()
    ensures forall i :: 0 <= i < |SpecialWords| ==>
      |SpecialWords[i].1| > 0 && Surface(SpecialWords[i].1) == SpecialWords[i].0
  {
    forall i | 0 <= i < |SpecialWords|
      ensures |SpecialWords[i].1| > 0 && Surface(SpecialWords[i].1) == SpecialWords[i].0
    {
      if i == 0 {
        SpellsDecipher();
      } else if i == 1 {
        SpellsAsparagus();
      } else {
        SpellsMisunderstand();
      }
    }
  }

  lemma SpellsDecipher()
    ensures Surface(SpecialWords[0].1) == SpecialWords[0].0
  {
    SurfaceDecipher();
    KeyDecipher();
  }

  lemma SurfaceDecipher()
    ensures Surface(SpecialWords[0].1) == "de" + "cipher"
  {
    var cs := SpecialWords[0].1;
    SurfaceOfTwo(cs[0], cs[1]);
    CleanDe(); CleanCipher();
  }

  lemma KeyDecipher()
    ensures SpecialWords[0].0 == "de" + "cipher"
  {
  }

  lemma SpellsAsparagus()
    ensures Surface(SpecialWords[1].1) == SpecialWords[1].0
  {
    SurfaceAsparagus();
    KeyAsparagus();
  }

  lemma SurfaceAsparagus()
    ensures Surface(SpecialWords[1].1) == "aspar" + "ag" + "us"
  {
    var cs := SpecialWords[1].1;
    SurfaceOfThree(cs[0], cs[1], cs[2]);
    CleanAspar(); CleanAg(); CleanUs();
  }

  lemma KeyAsparagus()
    ensures SpecialWords[1].0 == "aspar" + "ag" + "us"
  {
  }

  lemma SpellsMisunderstand()
    ensures Surface(SpecialWords[2].1) == SpecialWords[2].0
  {
    SurfaceMisunderstand();
    KeyMisunderstand();
  }

  lemma SurfaceMisunderstand()
    ensures Surface(SpecialWords[2].1) == "mis" + "under" + "stand"
  {
    var cs := SpecialWords[2].1;
    SurfaceOfThree(cs[0], cs[1], cs[2]);
    CleanMis(); CleanUnder(); CleanStand();
  }

  lemma KeyMisunderstand()
    ensures SpecialWords[2].0 == "mis" + "under" + "stand"
  {
  }

  /** Every compound has two non-empty parts that spell it out. */
  lemma CompoundsShape()
    ensures forall i :: 0 <= i < |Compounds| ==>
      |Compounds[i].1| == 2 && Surface(Compounds[i].1) == Compounds[i].0
      && forall k :: 0 <= k < 2 ==> Compounds[i].1[k].root != []
  {
    forall i | 0 <= i < |Compounds|
      ensures |Compounds[i].1| == 2 && Surface(Compounds[i].1) == Compounds[i].0
      ensures forall k :: 0 <= k < 2 ==> Compounds[i].1[k].root != []
    {
      if i == 0 {
        SpellsUnderstand();
      } else if i == 1 {
        SpellsOvercome();
      } else {
        SpellsWithdraw();
      }
    }
  }

  lemma SpellsUnderstand()
    ensures Surface(Compounds[0].1) == Compounds[0].0
  {
    SurfaceUnderstand();
    KeyUnderstand();
  }

  lemma SurfaceUnderstand()
    ensures Surface(Compounds[0].1) == "under" + "stand"
  {
    var cs := Compounds[0].1;
    SurfaceOfTwo(cs[0], cs[1]);
    CleanUnder(); CleanStand();
  }

  lemma KeyUnderstand()
    ensures Compounds[0].0 == "under" + "stand"
  {
  }

  lemma SpellsOvercome()
    ensures Surface(Compounds[1].1) == Compounds[1].0
  {
    SurfaceOvercome();
    KeyOvercome();
  }

  lemma SurfaceOvercome()
    ensures Surface(Compounds[1].1) == "over" + "come"
  {
    var cs := Compounds[1].1;
    SurfaceOfTwo(cs[0], cs[1]);
    CleanOver(); CleanCome();
  }

  lemma KeyOvercome()
    ensures Compounds[1].0 == "over" + "come"
  {
  }

  lemma SpellsWithdraw()
    ensures Surface(Compounds[2].1) == Compounds[2].0
  {
    SurfaceWithdraw();
    KeyWithdraw();
  }

  lemma SurfaceWithdraw()
    ensures Surface(Compounds[2].1) == "with" + "draw"
  {
    var cs := Compounds[2].1;
    SurfaceOfTwo(cs[0], cs[1]);
    CleanWith(); CleanDraw();
  }

  lemma KeyWithdraw()
    ensures Compounds[2].0 == "with" + "draw"
  {
  }

  // The clean forms of the keys used in the two override tables.
  lemma CleanDe() ensures Clean("de-") == "de" { CleanMarked("de"); assert "de-" == "de" + "-"; }
  lemma CleanUs() ensures Clean("-us") == "us" { CleanMarked("us"); assert "-us" == "-" + "us"; }
  lemma CleanMis() ensures Clean("mis-") == "mis" { CleanMarked("mis"); assert "mis-" == "mis" + "-"; }
  lemma CleanUnder() ensures Clean("under-") == "under" { CleanMarked("under"); assert "under-" == "under" + "-"; }
  lemma CleanOver() ensures Clean("over-") == "over" { CleanMarked("over"); assert "over-" == "over" + "-"; }
  lemma CleanWith() ensures Clean("with-") == "with" { CleanMarked("with"); assert "with-" == "with" + "-"; }
  lemma CleanCipher() ensures Clean("cipher") == "cipher" { }
  lemma CleanAspar() ensures Clean("aspar") == "aspar" { }
  lemma CleanAg() ensures Clean("ag") == "ag" { }
  lemma CleanStand() ensures Clean("stand") == "stand" { }
  lemma CleanCome() ensures Clean("come") == "come" { }
  lemma CleanDraw() ensures Clean("draw") == "draw" { }
}
