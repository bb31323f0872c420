/**
 * Collision-free key allocation: how a taken object key is rewritten with
 * a `_<timestamp>` suffix, and then a `_<counter>` suffix, before the file
 * extension, and which key the allocator settles on for a given set of
 * occupied keys. The search loop itself runs against the store
 * (Store.ObjectStore.GenerateUniqueKey); this module is its specification.
 */
module Keys {
  import opened Wrappers
  import opened Text

  /** The position of the last occurrence of `c` in `s`. */
  function LastIndexOf(s: string, c: char): (i: nat)
    requires c in s
    ensures i < |s| && s[i] == c
    ensures forall j :: i < j < |s| ==> s[j] != c
  {
    if s[|s| - 1] == c then |s| - 1 else LastIndexOf(s[..|s| - 1], c)
  }

  datatype Split = Whole(text: string) | Pair(before: string, after: string)

  /** `s.rsplit(sep, 1)`: one piece when `sep` does not occur, else the split at its last occurrence. */
  function RSplit1(s: string, sep: char): (r: Split)
    ensures r.Whole? <==> sep !in s
    ensures r.Whole? ==> r.text == s
    ensures r.Pair? ==> s == r.before + [sep] + r.after && sep !in r.after
  {
    if sep !in s then Whole(s)
    else
      var i := LastIndexOf(s, sep);
      assert s == s[..i] + [sep] + s[i + 1..];
      Pair(s[..i], s[i + 1..])
  }

  /** A string splits around a separator absent from the tail in only one way. */
  lemma SplitAtLastUnique(a: string, b: string, a': string, b': string, c: char)
    requires a + [c] + b == a' + [c] + b'
    requires c !in b && c !in b'
    ensures a == a' && b == b'
  {
    var s := a + [c] + b;
    assert forall j :: |a| < j < |s| ==> s[j] == b[j - |a| - 1];
    assert forall j :: |a'| < j < |s| ==> s[j] == b'[j - |a'| - 1];
    assert s[|a|] == c && s[|a'|] == c;
    assert |a| == |a'|;
    assert a == s[..|a|] == a';
    assert b == s[|a| + 1..] == b';
  }

  /**
   * A key taken apart the way the allocator does: `prefix` is what precedes
   * the last `/` (empty when there is none, or when the key starts with
   * its only `/`), and the file name after it is split at its last `.`.
   */
  datatype KeyParts = KeyParts(prefix: string, stem: string, ext: Option<string>)

  function ExtPart(p: KeyParts): string {
    if p.ext.Some? then "." + p.ext.value else ""
  }

  function Dir(p: KeyParts): string {
    if p.prefix != "" then p.prefix + "/" else ""
  }

  /** Parts a file name (the text after the last `/`) can have. */
  predicate WellFormed(p: KeyParts) {
    && '/' !in p.stem
    && (p.ext.Some? ==> '/' !in p.ext.value && '.' !in p.ext.value)
    && (p.ext.None? ==> '.' !in p.stem)
  }

  /** The text after the last `/`, or the whole key. */
  function FileName(key: string): (f: string)
    ensures '/' !in f
    ensures '/' in key ==> key == PathPrefix(key) + "/" + f
    ensures '/' !in key ==> f == key
  {
    var path := RSplit1(key, '/');
    if path.Pair? then path.after else key
  }

  /** The text before the last `/`, or nothing. */
  function PathPrefix(key: string): string {
    var path := RSplit1(key, '/');
    if path.Pair? then path.before else ""
  }

  function SplitName(filename: string): (p: KeyParts)
    ensures p.prefix == ""
    ensures filename == p.stem + ExtPart(p)
    ensures '/' !in filename ==> WellFormed(p)
  {
    var name := RSplit1(filename, '.');
    if name.Pair? then KeyParts("", name.before, Some(name.after))
    else KeyParts("", filename, None)
  }

  function ParseKey(key: string): (p: KeyParts)
    ensures WellFormed(p)
  {
    var n := SplitName(FileName(key));
    KeyParts(PathPrefix(key), n.stem, n.ext)
  }

  /**
   * The parts put back together give the key again, except that a key whose
   * only `/` is its first character loses it.
   */
  lemma ParseKeyRecombines(key: string)
    ensures var p := ParseKey(key);
            ('/' in key ==> key == p.prefix + "/" + p.stem + ExtPart(p))
            && ('/' !in key ==> p.prefix == "" && key == p.stem + ExtPart(p))
  {
    var n := SplitName(FileName(key));
    var p := ParseKey(key);
    assert ExtPart(p) == ExtPart(n);
    assert '/' in key ==> key == PathPrefix(key) + "/" + (n.stem + ExtPart(n));
  }

  /** The key with `suffix` inserted before the extension; no `/` is added for an empty prefix. */
  function WithSuffix(p: KeyParts, suffix: string): string {
    Dir(p) + p.stem + suffix + ExtPart(p)
  }

  lemma PathOfJoin(prefix: string, name: string)
    requires prefix != "" && '/' !in name
    ensures FileName(prefix + "/" + name) == name && PathPrefix(prefix + "/" + name) == prefix
  {
    var key := prefix + "/" + name;
    assert key[|prefix|] == '/';
    var path := RSplit1(key, '/');
    SplitAtLastUnique(prefix, name, path.before, path.after, '/');
  }

  lemma SplitNameJoin(p: KeyParts)
    requires WellFormed(p)
    ensures SplitName(p.stem + ExtPart(p)) == KeyParts("", p.stem, p.ext)
  {
    var name := p.stem + ExtPart(p);
    var q := SplitName(name);
    match p.ext {
      case Some(e) =>
        assert name == p.stem + "." + e;
        assert name[|p.stem|] == '.';
        var split := RSplit1(name, '.');
        SplitAtLastUnique(p.stem, e, split.before, split.after, '.');
      case None =>
        assert name == p.stem;
    }
  }

  lemma ParseJoinBare(p: KeyParts)
    requires WellFormed(p) && p.prefix == ""
    ensures ParseKey(WithSuffix(p, "")) == p
  {
    var name := p.stem + ExtPart(p);
    var key := WithSuffix(p, "");
    assert key == name;
    assert '/' !in name;
    SplitNameJoin(p);
    assert FileName(key) == name;
    assert PathPrefix(key) == "";
  }

  lemma ParseJoinPrefixed(p: KeyParts)
    requires WellFormed(p) && p.prefix != ""
    ensures ParseKey(WithSuffix(p, "")) == p
  {
    var name := p.stem + ExtPart(p);
    var key := WithSuffix(p, "");
    assert key == p.prefix + "/" + name;
    assert '/' !in name;
    SplitNameJoin(p);
    PathOfJoin(p.prefix, name);
  }

  /** Taking apart a key assembled from well-formed parts gives the parts back. */
  lemma ParseJoin(p: KeyParts)
    requires WellFormed(p)
    ensures ParseKey(WithSuffix(p, "")) == p
  {
    if p.prefix == "" {
      ParseJoinBare(p);
    } else {
      ParseJoinPrefixed(p);
    }
  }

  /** A suffix starting with `_` follows the directory and the stem. */
  lemma WithSuffixHead(p: KeyParts, suffix: string)
    requires |suffix| > 0 && suffix[0] == '_'
    ensures var h := Dir(p) + p.stem; var r := WithSuffix(p, suffix);
            |r| == |h| + |suffix| + |ExtPart(p)| && r[..|h|] == h && r[|h|] == '_'
  {
    var h := Dir(p) + p.stem;
    assert WithSuffix(p, suffix) == h + (suffix + ExtPart(p));
  }

  /**
   * The first candidate: `_<timestamp>` before the extension. It keeps the
   * key's directory and stem, and an `_` follows them.
   */
  function StampedKey(key: string, ts: string): (r: string)
    ensures var p := ParseKey(key); var h := Dir(p) + p.stem;
            |r| == |h| + 1 + |ts| + |ExtPart(p)| && r[..|h|] == h && r[|h|] == '_'
  {
    WithSuffixHead(ParseKey(key), "_" + ts);
    WithSuffix(ParseKey(key), "_" + ts)
  }

  /**
   * The later candidates: `_<timestamp>_<counter>` before the extension. They
   * keep the key's directory and stem, an `_` follows them, and none of them
   * is the timestamped candidate.
   */
  function CountedKey(key: string, ts: string, n: nat): (r: string)
    ensures var p := ParseKey(key); var h := Dir(p) + p.stem;
            |r| > |h| && r[..|h|] == h && r[|h|] == '_'
    ensures r != StampedKey(key, ts)
  {
    WithSuffixHead(ParseKey(key), "_" + ts + "_" + Decimal(n));
    WithSuffix(ParseKey(key), "_" + ts + "_" + Decimal(n))
  }

  /** Inserting `a` and then `b` is inserting their concatenation. */
  lemma WithSuffixSpelled(p: KeyParts, a: string, b: string)
    ensures WithSuffix(p, a + b) == Dir(p) + p.stem + a + b + ExtPart(p)
  {
  }

  lemma CountedSuffixSpelled(p: KeyParts, ts: string, d: string)
    ensures WithSuffix(p, "_" + ts + "_" + d) == Dir(p) + p.stem + "_" + ts + "_" + d + ExtPart(p)
  {
    WithSuffixSpelled(p, "_" + ts + "_", d);
    WithSuffixSpelled(p, "_" + ts, "_");
  }

  /**
   * The candidate shapes for a key assembled from parts: `prefix/stem_ts.ext`,
   * `stem_ts` without an extension, no `/` without a prefix, and the same with
   * `_counter` after the timestamp.
   */
  lemma CandidateShapes(p: KeyParts, ts: string, n: nat)
    requires WellFormed(p)
    ensures StampedKey(WithSuffix(p, ""), ts) == Dir(p) + p.stem + "_" + ts + ExtPart(p)
    ensures CountedKey(WithSuffix(p, ""), ts, n) == Dir(p) + p.stem + "_" + ts + "_" + Decimal(n) + ExtPart(p)
  {
    ParseJoin(p);
    WithSuffixSpelled(p, "_", ts);
    CountedSuffixSpelled(p, ts, Decimal(n));
  }

  lemma WithSuffixCancel(p: KeyParts, x: string, y: string)
    requires WithSuffix(p, x) == WithSuffix(p, y)
    ensures x == y
  {
    var h := Dir(p) + p.stem;
    var k := WithSuffix(p, x);
    assert |x| == |y|;
    assert k[|h|..|h| + |x|] == x;
    assert WithSuffix(p, y)[|h|..|h| + |y|] == y;
  }

  lemma PrefixCancel(h: string, x: string, y: string)
    requires h + x == h + y
    ensures x == y
  {
    assert x == (h + x)[|h|..];
  }

  /** Distinct counters give distinct candidates. */
  lemma CountedKeyInjective(key: string, ts: string, m: nat, n: nat)
    requires CountedKey(key, ts, m) == CountedKey(key, ts, n)
    ensures m == n
  {
    WithSuffixCancel(ParseKey(key), "_" + ts + "_" + Decimal(m), "_" + ts + "_" + Decimal(n));
    PrefixCancel("_" + ts + "_", Decimal(m), Decimal(n));
    DecimalInjective(m, n);
  }

  /** An injective numbering of n candidates names n distinct keys. */
  lemma {:induction false} ImageSize(f: nat -> string, n: nat)
    requires forall i, j :: 1 <= i <= n && 1 <= j <= n && f(i) == f(j) ==> i == j
    ensures |set i | 1 <= i <= n :: f(i)| == n
  {
    if n > 0 {
      ImageSize(f, n - 1);
      var prev := set i | 1 <= i <= n - 1 :: f(i);
      assert (set i | 1 <= i <= n :: f(i)) == prev + {f(n)};
      assert f(n) !in prev;
    }
  }

  /** The counters 1..n can all be taken only if the store holds at least n keys. */
  lemma CountersBound(keys: set<string>, key: string, ts: string, n: nat)
    requires forall i :: 1 <= i <= n ==> CountedKey(key, ts, i) in keys
    ensures n <= |keys|
  {
    var f := (i: nat) => CountedKey(key, ts, i);
    forall i, j | 1 <= i <= n && 1 <= j <= n && f(i) == f(j) ensures i == j {
      CountedKeyInjective(key, ts, i, j);
    }
    ImageSize(f, n);
    SubsetSize(set i | 1 <= i <= n :: f(i), keys);
  }

  lemma SubsetSize(small: set<string>, large: set<string>)
    requires small <= large
    ensures |small| <= |large|
  {
    assert large == small + (large - small);
    assert small * (large - small) == {};
  }

  /**
   * The least counter from `n` on whose candidate is free, given that the
   * candidates below `n` are all taken. It exists because the store is finite
   * and distinct counters give distinct candidates.
   */
  function FirstFreeCounter(keys: set<string>, key: string, ts: string, n: nat): (r: nat)
    requires n >= 1
    requires forall i :: 1 <= i < n ==> CountedKey(key, ts, i) in keys
    ensures r >= n
    ensures CountedKey(key, ts, r) !in keys
    ensures forall i :: 1 <= i < r ==> CountedKey(key, ts, i) in keys
    decreases |keys| + 1 - n
  {
    if CountedKey(key, ts, n) !in keys then n
    else
      assert forall i :: 1 <= i <= n ==> CountedKey(key, ts, i) in keys by {
        forall i | 1 <= i <= n ensures CountedKey(key, ts, i) in keys {
          if i == n {
          }
        }
      }
      CountersBound(keys, key, ts, n);
      FirstFreeCounter(keys, key, ts, n + 1)
  }

  /**
   * The key the allocator returns when `keys` are the occupied keys: the
   * desired key if free, else its timestamped form if free, else the
   * timestamped form with the least free counter.
   */
  function AllocateKey(keys: set<string>, desired: string, ts: string): (r: string)
    ensures r !in keys
    ensures desired !in keys ==> r == desired
    ensures desired in keys && StampedKey(desired, ts) !in keys ==> r == StampedKey(desired, ts)
    ensures desired in keys && StampedKey(desired, ts) in keys ==>
              exists n :: n >= 1 && r == CountedKey(desired, ts, n)
                          && forall i :: 1 <= i < n ==> CountedKey(desired, ts, i) in keys
  {
    if desired !in keys then desired
    else if StampedKey(desired, ts) !in keys then StampedKey(desired, ts)
    else CountedKey(desired, ts, FirstFreeCounter(keys, desired, ts, 1))
  }

  /** Only a free desired key comes back unchanged. */
  lemma AllocateKeyKeepsOnlyFreeKey(keys: set<string>, desired: string, ts: string)
    ensures AllocateKey(keys, desired, ts) == desired <==> desired !in keys
  {
  }

  /**
   * A key other than the desired one is a timestamped or counted candidate,
   * so it carries an `_` right after the desired key's stem.
   */
  lemma AllocatedCandidateHasUnderscore(keys: set<string>, desired: string, ts: string)
    requires AllocateKey(keys, desired, ts) != desired
    ensures '_' in AllocateKey(keys, desired, ts)
  {
    var p := ParseKey(desired);
    var r := AllocateKey(keys, desired, ts);
    assert r[|Dir(p) + p.stem|] == '_';
  }
}
