/**
 * Morpheme components and the ordered pattern tables they come from.
 *
 * The source keeps every table in a plain JavaScript object and walks it with
 * `Object.entries`, so the order in which keys were inserted decides both
 * first-match affix stripping and tie-breaking in the longest-match root
 * search.  A table is therefore a sequence of (key, value) pairs.
 */
module Tables {
  import opened Wrappers
  import opened Text

  /**
   * One component of a decomposition, `{ root, meaning }`.  `Unglossed` is the
   * object whose `meaning` property is `undefined`.
   */
  datatype Component = Component(root: string, meaning: string) | Unglossed(root: string)

  /**
   * The surface text a decomposition covers: the components' texts with
   * their affix markers dropped, joined in order.
   */
  function Surface(cs: seq<Component>): string
  {
    if cs == [] then [] else Clean(cs[0].root) + Surface(cs[1..])
  }

  lemma {:induction false} SurfaceAppend(a: seq<Component>, b: seq<Component>)
    ensures Surface(a + b) == Surface(a) + Surface(b)
  {
    if a == [] {
      assert a + b == b;
    } else {
      assert (a + b)[1..] == a[1..] + b;
      SurfaceAppend(a[1..], b);
    }
  }

  /** Three decompositions joined cover the three texts they cover, joined. */
  lemma JoinThree(a: seq<Component>, b: seq<Component>, c: seq<Component>, x: string, y: string, z: string)
    requires Surface(a) == x && Surface(b) == y && Surface(c) == z
    ensures Surface(a + b + c) == x + y + z
  {
    SurfaceAppend(a, b);
    SurfaceAppend(a + b, c);
  }

  lemma SurfaceOfOne(c: Component)
    ensures Surface([c]) == Clean(c.root)
  {
    assert [c][1..] == [];
    assert Surface([c]) == Clean(c.root) + Surface([]);
  }

  lemma SurfaceOfTwo(c0: Component, c1: Component)
    ensures Surface([c0, c1]) == Clean(c0.root) + Clean(c1.root)
  {
    assert [c0, c1][1..] == [c1];
    assert [c1][1..] == [];
    assert Surface([c1]) == Clean(c1.root) + Surface([]);
  }

  lemma SurfaceOfThree(c0: Component, c1: Component, c2: Component)
    ensures Surface([c0, c1, c2]) == Clean(c0.root) + Clean(c1.root) + Clean(c2.root)
  {
    assert [c0, c1, c2][1..] == [c1, c2];
    SurfaceOfTwo(c1, c2);
  }

  /** An insertion-ordered JavaScript object with string keys. */
  type Table<V> = seq<(string, V)>

  /** A pattern table: affix or root key to its gloss. */
  type Glossary = Table<string>

  /** The prefix, suffix and root tables of an analyzer (`rootPatterns`). */
  datatype Patterns = Patterns(prefixes: Glossary, suffixes: Glossary, roots: Glossary)

  /** An entry of the word database loaded from the dictionary file. */
  datatype DictEntry = DictEntry(gloss: string, roots: seq<Component>)

  /** `wordDatabase`: word to entry, in file order. */
  type WordDatabase = Table<DictEntry>

  /** Every key occurs once, as in a JavaScript object. */
  ghost predicate DistinctKeys<V>(t: Table<V>)
  {
    forall i, j :: 0 <= i < j < |t| ==> t[i].0 != t[j].0
  }

  /** The keys in iteration order (`Object.keys`). */
  function Keys<V>(t: Table<V>): (r: seq<string>)
    ensures |r| == |t| && forall i :: 0 <= i < |t| ==> r[i] == t[i].0
  {
    seq(|t|, i requires 0 <= i < |t| => t[i].0)
  }

  /** Position of the first entry at or after `k` whose key is `key`. */
  function KeyIndexFrom<V>(t: Table<V>, key: string, k: nat): (r: Option<nat>)
    decreases |t| - k
    ensures r.Some? ==> k <= r.value < |t| && t[r.value].0 == key
    ensures forall j :: k <= j < |t| && (r.None? || j < r.value) ==> t[j].0 != key
  {
    if k >= |t| then None
    else if t[k].0 == key then Some(k)
    else KeyIndexFrom(t, key, k + 1)
  }

  /** Position of `key` in the table, if it is there. */
  function KeyIndex<V>(t: Table<V>, key: string): (r: Option<nat>)
    ensures r.Some? ==> r.value < |t| && t[r.value].0 == key
    ensures forall j :: 0 <= j < |t| && (r.None? || j < r.value) ==> t[j].0 != key
  {
    KeyIndexFrom(t, key, 0)
  }

  /** `obj[key]`, with `None` for a missing property. */
  function Get<V>(t: Table<V>, key: string): (r: Option<V>)
    ensures r.None? <==> key !in Keys(t)
    ensures r.Some? ==> (key, r.value) in t
  {
    match KeyIndex(t, key)
    case None => None
    case Some(i) => Some(t[i].1)
  }

  /**
   * `obj[key] = value`: an existing key keeps its place and takes the new
   * value; a new key is appended at the end.
   */
  function SetEntry<V>(t: Table<V>, key: string, value: V): (r: Table<V>)
    ensures Get(r, key) == Some(value)
    ensures forall k :: k != key ==> Get(r, k) == Get(t, k)
    ensures key in Keys(t) ==> Keys(r) == Keys(t)
    ensures key !in Keys(t) ==> Keys(r) == Keys(t) + [key]
    ensures DistinctKeys(t) ==> DistinctKeys(r)
  {
    match KeyIndex(t, key)
    case Some(i) =>
      var r := t[i := (key, value)];
      KeyIndexAgree(t, r, key, 0);
      assert Keys(r) == Keys(t);
      assert forall k :: k != key ==> KeyIndex(r, k) == KeyIndex(t, k) by {
        forall k | k != key ensures KeyIndex(r, k) == KeyIndex(t, k) {
          KeyIndexAgree(t, r, k, 0);
        }
      }
      r
    case None =>
      var r := t + [(key, value)];
      KeyIndexIs(r, key, |t|);
      assert Keys(r) == Keys(t) + [key];
      assert forall k :: k != key ==> KeyIndex(r, k) == KeyIndex(t, k) by {
        forall k | k != key ensures KeyIndex(r, k) == KeyIndex(t, k) {
          KeyIndexAgree(t, r, k, 0);
        }
      }
      r
  }

  /** Two tables whose keys agree except on entries not keyed `key` give the same position for `key`. */
  lemma {:induction false} KeyIndexAgree<V>(t: Table<V>, r: Table<V>, key: string, k: nat)
    requires |t| <= |r|
    requires forall j :: 0 <= j < |t| ==> (t[j].0 == key <==> r[j].0 == key)
    requires forall j :: |t| <= j < |r| ==> r[j].0 != key
    decreases |r| - k
    ensures KeyIndexFrom(r, key, k) == KeyIndexFrom(t, key, k)
  {
    if k < |t| && t[k].0 != key {
      KeyIndexAgree(t, r, key, k + 1);
    } else if k >= |t| && k < |r| {
      KeyIndexAgree(t, r, key, k + 1);
    }
  }

  /** The first entry keyed `key` is at position `i`. */
  lemma KeyIndexIs<V>(t: Table<V>, key: string, i: nat)
    requires i < |t| && t[i].0 == key
    requires forall j :: 0 <= j < i ==> t[j].0 != key
    ensures KeyIndex(t, key) == Some(i)
  {
  }

  /** Which end of the word an affix is matched against. */
  datatype Side = Front | Back

  /**
   * The affix test of all three analyzers: the clean form of the key starts
   * (or ends) the word and is strictly shorter than it.
   */
  predicate AffixMatches(side: Side, key: string, word: string)
  {
    var clean := Clean(key);
    (if side == Front then StartsWith(word, clean) else EndsWith(word, clean))
      && |word| > |clean|
  }

  /** What is left of `word` once a matching affix has been cut off. */
  function Strip(side: Side, key: string, word: string): (r: string)
    requires AffixMatches(side, key, word)
    ensures |r| == |word| - |Clean(key)| > 0
    ensures side == Front ==> Clean(key) + r == word
    ensures side == Back ==> r + Clean(key) == word
  {
    var n := |Clean(key)|;
    if side == Front then
      assert word == word[..n] + word[n..];
      word[n..]
    else
      assert word == word[..|word| - n] + word[|word| - n..];
      word[..|word| - n]
  }

  /** First-match search over table entries from position `k` on. */
  function FirstAffixFrom(side: Side, t: Glossary, word: string, k: nat): (r: Option<nat>)
    decreases |t| - k
    ensures r.Some? ==> k <= r.value < |t| && AffixMatches(side, t[r.value].0, word)
    ensures forall j :: k <= j < |t| && (r.None? || j < r.value) ==> !AffixMatches(side, t[j].0, word)
  {
    if k >= |t| then None
    else if AffixMatches(side, t[k].0, word) then Some(k)
    else FirstAffixFrom(side, t, word, k + 1)
  }

  /**
   * The affix policy: the first entry in table order that matches, however
   * short it is.
   */
  function FirstAffix(side: Side, t: Glossary, word: string): (r: Option<nat>)
    ensures r.Some? ==> r.value < |t| && AffixMatches(side, t[r.value].0, word)
    ensures forall j :: 0 <= j < |t| && (r.None? || j < r.value) ==> !AffixMatches(side, t[j].0, word)
  {
    FirstAffixFrom(side, t, word, 0)
  }

  /**
   * One affix step of the loop-based analyzers: strip the first matching
   * entry of `t` from `word`, or leave `word` as it is when none matches.
   * Returns the index of the stripped entry and what is left.
   */
  function StripFirst(side: Side, t: Glossary, word: string): (r: (Option<nat>, string))
    ensures r.0 == FirstAffix(side, t, word)
    ensures r.0.None? ==> r.1 == word
    ensures r.0.Some? ==> r.0.value < |t| && r.1 != []
    ensures r.0.Some? && side == Front ==> Clean(t[r.0.value].0) + r.1 == word
    ensures r.0.Some? && side == Back ==> r.1 + Clean(t[r.0.value].0) == word
  {
    match FirstAffix(side, t, word)
    case None => (None, word)
    case Some(i) => (Some(i), Strip(side, t[i].0, word))
  }

  /** The component of table entry `i`, if there is one. */
  function EntryPart(t: Glossary, i: Option<nat>): seq<Component>
    requires i.Some? ==> i.value < |t|
  {
    if i.Some? then [Component(t[i.value].0, t[i.value].1)] else []
  }

  /** The clean text of table entry `i` (`key.replace('-', '')`), if there is one. */
  function EntryText(t: Glossary, i: Option<nat>): string
    requires i.Some? ==> i.value < |t|
  {
    if i.Some? then Clean(t[i.value].0) else []
  }

  /** The component of table entry `i` covers that entry's clean text. */
  lemma EntrySurface(t: Glossary, i: Option<nat>)
    requires i.Some? ==> i.value < |t|
    ensures Surface(EntryPart(t, i)) == EntryText(t, i)
  {
    if i.Some? {
      SurfaceOfOne(Component(t[i.value].0, t[i.value].1));
    }
  }

  /** The key of table entry `i`, if there is one. */
  function EntryKey(t: Glossary, i: Option<nat>): seq<string>
    requires i.Some? ==> i.value < |t|
  {
    if i.Some? then [t[i.value].0] else []
  }

  /** The first `n` elements of `s`, or all of it when it is shorter (`slice(0, n)`). */
  function Take<T>(s: seq<T>, n: nat): (r: seq<T>)
    ensures |r| <= n && |r| <= |s|
    ensures r == s[..|r|]
    ensures |s| <= n ==> r == s
    ensures |s| > n ==> |r| == n
  {
    if |s| <= n then s else s[..n]
  }

  /**
   * The longest-match root policy over the first `n` entries, computed the
   * way the source's loop does: an entry replaces the best so far only when
   * it occurs in `stem` and is strictly longer.
   */
  function LongestRootIn(t: Glossary, stem: string, n: nat): (r: Option<nat>)
    requires n <= |t|
    ensures r.Some? ==> r.value < n && |t[r.value].0| > 0 && Contains(stem, t[r.value].0)
    ensures r.Some? ==> forall j :: 0 <= j < n && Contains(stem, t[j].0) ==> |t[j].0| <= |t[r.value].0|
    ensures r.Some? ==> forall j :: 0 <= j < r.value && Contains(stem, t[j].0) ==> |t[j].0| < |t[r.value].0|
    ensures r.None? ==> forall j :: 0 <= j < n && Contains(stem, t[j].0) ==> t[j].0 == []
  {
    if n == 0 then None
    else
      var best := LongestRootIn(t, stem, n - 1);
      var bestLength := if best.Some? then |t[best.value].0| else 0;
      if Contains(stem, t[n - 1].0) && |t[n - 1].0| > bestLength then Some(n - 1) else best
  }

  /** The longest table root occurring in `stem`, the earliest one among equals. */
  function LongestRoot(t: Glossary, stem: string): (r: Option<nat>)
    ensures r.Some? ==> r.value < |t| && |t[r.value].0| > 0 && Contains(stem, t[r.value].0)
    ensures r.Some? ==> forall j :: 0 <= j < |t| && Contains(stem, t[j].0) ==> |t[j].0| <= |t[r.value].0|
    ensures r.Some? ==> forall j :: 0 <= j < r.value && Contains(stem, t[j].0) ==> |t[j].0| < |t[r.value].0|
    ensures r.None? ==> forall j :: 0 <= j < |t| && Contains(stem, t[j].0) ==> t[j].0 == []
  {
    LongestRootIn(t, stem, |t|)
  }
}
