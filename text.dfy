/**
 * The string operations the analyzers rely on, with the meaning JavaScript's
 * `String.prototype` gives them: `toLowerCase`, `startsWith`, `endsWith`,
 * `includes`, `indexOf`, `substring`, `replace(str, '')` (first occurrence
 * only) and `replace(/[-]/g, '')` (every occurrence).
 */
module Text {
  import opened Wrappers

  /** Lower-cases one ASCII letter and leaves every other character alone. */
  function LowerChar(c: char): char
  {
    if 'A' <= c <= 'Z' then (c as int + 32) as char else c
  }

  /** `s.toLowerCase()` on ASCII text. */
  function ToLower(s: string): (r: string)
    ensures |r| == |s|
    ensures forall i :: 0 <= i < |s| ==> r[i] == LowerChar(s[i])
  {
    seq(|s|, i requires 0 <= i < |s| => LowerChar(s[i]))
  }

  /** Lower-casing never creates or removes a hyphen. */
  lemma ToLowerKeepsDashes(s: string)
    ensures ('-' in ToLower(s)) <==> ('-' in s)
  {
    var r := ToLower(s);
    if '-' in r {
      var i :| 0 <= i < |r| && r[i] == '-';
      assert s[i] == '-';
    }
    if '-' in s {
      var i :| 0 <= i < |s| && s[i] == '-';
      assert r[i] == '-';
    }
  }

  /** `s.startsWith(p)` */
  predicate StartsWith(s: string, p: string)
  {
    |p| <= |s| && s[..|p|] == p
  }

  /** `s.endsWith(p)` */
  predicate EndsWith(s: string, p: string)
  {
    |p| <= |s| && s[|s| - |p|..] == p
  }

  /** `p` occurs in `s` starting at position `i`. */
  predicate OccursAt(s: string, p: string, i: int)
  {
    0 <= i && i + |p| <= |s| && s[i..i + |p|] == p
  }

  /** The first position at or after `k` where `p` occurs in `s`. */
  function IndexFrom(s: string, p: string, k: nat): (r: Option<nat>)
    decreases |s| - k
    ensures r.Some? ==> k <= r.value && OccursAt(s, p, r.value)
    ensures r.Some? ==> forall j :: k <= j < r.value ==> !OccursAt(s, p, j)
    ensures r.None? ==> forall j :: k <= j ==> !OccursAt(s, p, j)
  {
    if k + |p| > |s| then None
    else if s[k..k + |p|] == p then Some(k)
    else IndexFrom(s, p, k + 1)
  }

  /** `s.indexOf(p)`, with `None` for JavaScript's `-1`. */
  function IndexOf(s: string, p: string): (r: Option<nat>)
    ensures r.Some? ==> OccursAt(s, p, r.value)
    ensures r.Some? ==> forall j :: 0 <= j < r.value ==> !OccursAt(s, p, j)
    ensures r.None? ==> forall j :: !OccursAt(s, p, j)
  {
    IndexFrom(s, p, 0)
  }

  /** `s.includes(p)` */
  predicate Contains(s: string, p: string)
  {
    IndexOf(s, p).Some?
  }

  /** `s.replace(p, '')`: the first occurrence of `p` is cut out, if there is one. */
  function RemoveFirst(s: string, p: string): (r: string)
    ensures !Contains(s, p) ==> r == s
    ensures Contains(s, p) ==> |r| == |s| - |p| && multiset(r) + multiset(p) == multiset(s)
    ensures Contains(s, p) ==> var i := IndexOf(s, p).value; r == s[..i] + s[i + |p|..]
  {
    match IndexOf(s, p)
    case None => s
    case Some(i) =>
      assert s == s[..i] + p + s[i + |p|..];
      s[..i] + s[i + |p|..]
  }

  /** The text has no hyphen marker in it. */
  predicate NoDash(s: string)
  {
    '-' !in s
  }

  /** A piece of a hyphen-free text is hyphen-free. */
  lemma NoDashSlice(s: string, i: nat, j: nat)
    requires NoDash(s) && i <= j <= |s|
    ensures NoDash(s[i..j])
  {
  }

  /** Two texts joined are hyphen-free exactly when both are. */
  lemma NoDashConcat(a: string, b: string)
    ensures NoDash(a + b) <==> NoDash(a) && NoDash(b)
  {
    assert forall k :: 0 <= k < |a| ==> (a + b)[k] == a[k];
    assert forall k :: 0 <= k < |b| ==> (a + b)[|a| + k] == b[k];
  }

  /** Cutting a text at two points and joining the pieces gives the text back. */
  lemma SliceThree(s: string, i: nat, j: nat)
    requires i <= j <= |s|
    ensures s == s[..i] + s[i..j] + s[j..]
  {
  }

  /** A text has a hyphen exactly when `"-"` occurs in it as a substring. */
  lemma DashOccurrence(s: string)
    ensures NoDash(s) <==> !Contains(s, "-")
  {
    if NoDash(s) {
      forall j ensures !OccursAt(s, "-", j) {
        if 0 <= j && j + 1 <= |s| {
          assert s[j..j + 1] == [s[j]];
        }
      }
    } else {
      var i :| 0 <= i < |s| && s[i] == '-';
      assert s[i..i + 1] == "-";
      assert OccursAt(s, "-", i);
    }
  }

  /**
   * The "clean" form of a table key, `key.replace('-', '')`: the first
   * hyphen marker is dropped.
   */
  function Clean(key: string): (r: string)
    ensures NoDash(key) ==> r == key
    ensures !NoDash(key) ==> |r| == |key| - 1
  {
    if key == [] then []
    else if key[0] == '-' then key[1..]
    else [key[0]] + Clean(key[1..])
  }

  /** `Clean` cuts out exactly the first hyphen: the one at `i` when none comes before it. */
  lemma {:induction false} CleanDropsFirstDash(key: string, i: nat)
    requires i < |key| && key[i] == '-' && NoDash(key[..i])
    ensures Clean(key) == key[..i] + key[i + 1..]
  {
    if i > 0 {
      assert key[0] in key[..i];
      var rest := key[1..];
      assert rest[..i - 1] == key[1..i];
      CleanDropsFirstDash(rest, i - 1);
      assert rest[i..] == key[i + 1..];
      assert key[..i] == [key[0]] + rest[..i - 1];
    }
  }

  /** `Clean` is `key.replace('-', '')`: the first occurrence of `"-"` is cut out. */
  lemma CleanIsReplace(key: string)
    ensures Clean(key) == RemoveFirst(key, "-")
  {
    DashOccurrence(key);
    if !NoDash(key) {
      var i := IndexOf(key, "-").value;
      assert key[i..i + 1] == "-";
      assert key[i] == '-';
      forall j | 0 <= j < i ensures key[j] != '-' {
        assert key[j..j + 1] == [key[j]];
        assert !OccursAt(key, "-", j);
      }
      assert NoDash(key[..i]);
      CleanDropsFirstDash(key, i);
    }
  }

  /** A key marked with one hyphen at either end cleans to its bare text. */
  lemma {:induction false} CleanMarked(a: string)
    requires NoDash(a)
    ensures Clean(a + "-") == a
    ensures Clean("-" + a) == a
  {
    assert ("-" + a)[1..] == a;
    if a != [] {
      assert (a + "-")[1..] == a[1..] + "-";
      CleanMarked(a[1..]);
    }
  }

  /** `s.replace(/[-]/g, '')`: every hyphen is dropped. */
  function StripDashes(s: string): (r: string)
    ensures NoDash(r)
    ensures NoDash(s) ==> r == s
  {
    if s == [] then []
    else (if s[0] == '-' then [] else [s[0]]) + StripDashes(s[1..])
  }

  /**
   * Dropping the hyphens of two joined texts is dropping them from each:
   * together with the one-character case, every other character is kept,
   * in order.
   */
  lemma {:induction false} StripDashesAppend(a: string, b: string)
    ensures StripDashes(a + b) == StripDashes(a) + StripDashes(b)
  {
    if a == [] {
      assert a + b == b;
    } else {
      var head := if a[0] == '-' then [] else [a[0]];
      var x, y, z := StripDashes(a[1..]), StripDashes(b), StripDashes(a[1..] + b);
      assert StripDashes(a + b) == head + z by {
        assert (a + b)[0] == a[0] && (a + b)[1..] == a[1..] + b;
      }
      StripDashesAppend(a[1..], b);
      assert head + (x + y) == (head + x) + y;
    }
  }

  /** A single character is kept unless it is a hyphen. */
  lemma StripDashesOne(c: char)
    ensures StripDashes([c]) == if c == '-' then [] else [c]
  {
    assert [c][1..] == [];
  }
}
