/**
 * Character-level string operations used by the command encoder:
 * removing every occurrence of a character (Java's `String.replace`
 * with a one-character target and an empty replacement), joining
 * fields with a separator, and the reference field splitter that
 * states how a reader of a frame sees its fields.
 */
module Text {

  predicate StartsWith(s: string, prefix: string) {
    |prefix| <= |s| && s[..|prefix|] == prefix
  }

  predicate EndsWith(s: string, suffix: string) {
    |suffix| <= |s| && s[|s| - |suffix|..] == suffix
  }

  /** Number of occurrences of `c` in `s`. */
  function Count(s: string, c: char): (n: nat)
    ensures n <= |s|
    ensures n == 0 <==> c !in s
  {
    if s == [] then 0
    else
      assert s == [s[0]] + s[1..];
      (if s[0] == c then 1 else 0) + Count(s[1..], c)
  }

  lemma {:induction false} CountAppend(a: string, b: string, c: char)
    ensures Count(a + b, c) == Count(a, c) + Count(b, c)
  {
    if a == [] {
      assert a + b == b;
    } else {
      assert (a + b)[1..] == a[1..] + b;
      CountAppend(a[1..], b, c);
    }
  }

  /** `s` with every occurrence of `c` removed. */
  function Remove(s: string, c: char): (r: string)
    ensures c !in r
    ensures |r| <= |s|
  {
    if s == [] then []
    else
      var rest := Remove(s[1..], c);
      if s[0] == c then rest else [s[0]] + rest
  }

  /**
   * Removal takes away every `c` and keeps every other character as often
   * as it occurred.
   */
  lemma {:induction false} RemoveCounts(s: string, c: char, x: char)
    ensures Count(Remove(s, c), x) == if x == c then 0 else Count(s, x)
  {
    if s != [] {
      RemoveCounts(s[1..], c, x);
      var rest := Remove(s[1..], c);
      if s[0] != c {
        assert ([s[0]] + rest)[1..] == rest;
      }
    }
  }

  /** Removing a character that does not occur changes nothing. */
  lemma {:induction false} RemoveAbsent(s: string, c: char)
    requires c !in s
    ensures Remove(s, c) == s
  {
    if s != [] {
      assert c !in s[1..];
      RemoveAbsent(s[1..], c);
      assert s == [s[0]] + s[1..];
    }
  }

  /** Removal is idempotent. */
  lemma RemoveIdempotent(s: string, c: char)
    ensures Remove(Remove(s, c), c) == Remove(s, c)
  {
    RemoveAbsent(Remove(s, c), c);
  }

  /**
   * Removal works piecewise over a concatenation; with RemoveAbsent and
   * `Remove([c], c) == []` this fixes the order of the kept characters.
   */
  lemma {:induction false} RemoveAppend(a: string, b: string, c: char)
    ensures Remove(a + b, c) == Remove(a, c) + Remove(b, c)
  {
    if a == [] {
      assert a + b == b;
    } else {
      assert (a + b)[0] == a[0];
      assert (a + b)[1..] == a[1..] + b;
      RemoveAppend(a[1..], b, c);
    }
  }

  /** One occurrence of `c` between two pieces disappears. */
  lemma RemoveDropsOne(before: string, after: string, c: char)
    ensures Remove(before + [c] + after, c) == Remove(before + after, c)
  {
    var mid: string := [c];
    RemoveAppend(before + mid, after, c);
    RemoveAppend(before, mid, c);
    RemoveAppend(before, after, c);
    assert Remove(mid, c) == [];
  }

  /**
   * The fields of `parts` joined by `sep`, with a separator between
   * neighbours and none after the last one. Defined from the end, as
   * a left-to-right accumulation builds it.
   */
  function Join(parts: seq<string>, sep: char): string
  {
    if |parts| == 0 then []
    else if |parts| == 1 then parts[0]
    else Join(parts[..|parts| - 1], sep) + [sep] + parts[|parts| - 1]
  }

  lemma {:induction false} JoinAppend(p: seq<string>, q: seq<string>, sep: char)
    requires |p| > 0 && |q| > 0
    ensures Join(p + q, sep) == Join(p, sep) + [sep] + Join(q, sep)
  {
    if |q| == 1 {
      assert (p + q)[..|p + q| - 1] == p;
    } else {
      var q' := q[..|q| - 1];
      assert (p + q)[..|p + q| - 1] == p + q';
      assert (p + q)[|p + q| - 1] == q[|q| - 1];
      JoinAppend(p, q', sep);
    }
  }

  /** The join of the first i + 1 fields, from the join of the first i. */
  lemma JoinTakeNext(parts: seq<string>, i: nat, sep: char)
    requires i < |parts|
    ensures Join(parts[..i + 1], sep)
            == if i == 0 then parts[0] else Join(parts[..i], sep) + [sep] + parts[i]
  {
    assert parts[..i + 1][..i] == parts[..i];
  }

  /** A join begins with its first field. */
  lemma {:induction false} JoinStartsWithFirst(parts: seq<string>, sep: char)
    requires |parts| > 0
    ensures StartsWith(Join(parts, sep), parts[0])
  {
    if |parts| > 1 {
      var init := parts[..|parts| - 1];
      JoinStartsWithFirst(init, sep);
      var j := Join(init, sep);
      assert (j + [sep] + parts[|parts| - 1])[..|parts[0]|] == j[..|parts[0]|];
    }
  }

  /** Joining a first field onto at least one more. */
  lemma JoinCons(p: string, q: seq<string>, sep: char)
    requires |q| > 0
    ensures Join([p] + q, sep) == p + [sep] + Join(q, sep)
  {
    JoinAppend([p], q, sep);
  }

  /** Index of the first `sep` in `s`, or `|s|` when there is none. */
  function FirstIndex(s: string, sep: char): (i: nat)
    ensures i <= |s|
    ensures i < |s| ==> s[i] == sep
    ensures forall k :: 0 <= k < i ==> s[k] != sep
  {
    if s == [] || s[0] == sep then 0 else 1 + FirstIndex(s[1..], sep)
  }

  /**
   * Reference field splitter: the maximal separator-free pieces of `s`,
   * in order, including empty pieces (so "" has one empty field).
   */
  function Split(s: string, sep: char): (r: seq<string>)
    ensures |r| > 0
    ensures forall j :: 0 <= j < |r| ==> sep !in r[j]
    decreases |s|
  {
    var i := FirstIndex(s, sep);
    if i == |s| then [s] else [s[..i]] + Split(s[i + 1..], sep)
  }

  /** Splitting undoes joining, provided no field contains the separator. */
  lemma {:induction false} SplitJoin(parts: seq<string>, sep: char)
    requires |parts| > 0
    requires forall i :: 0 <= i < |parts| ==> sep !in parts[i]
    ensures Split(Join(parts, sep), sep) == parts
  {
    var p := parts[0];
    if |parts| == 1 {
      assert FirstIndex(p, sep) == |p|;
    } else {
      var q := parts[1..];
      assert parts == [p] + q;
      JoinCons(p, q, sep);
      var s := p + [sep] + Join(q, sep);
      assert s[|p|] == sep;
      assert forall k :: 0 <= k < |p| ==> s[k] == p[k];
      assert FirstIndex(s, sep) == |p|;
      assert s[..|p|] == p;
      assert s[|p| + 1..] == Join(q, sep);
      SplitJoin(q, sep);
    }
  }

  /** Joining undoes splitting, for every string. */
  lemma {:induction false} JoinSplit(s: string, sep: char)
    ensures Join(Split(s, sep), sep) == s
    decreases |s|
  {
    var i := FirstIndex(s, sep);
    if i < |s| {
      var first, rest := s[..i], s[i + 1..];
      var fields := Split(rest, sep);
      assert Split(s, sep) == [first] + fields;
      JoinSplit(rest, sep);
      JoinCons(first, fields, sep);
      assert s == first + [sep] + rest;
    }
  }

  /** Joining n separator-free fields puts exactly n - 1 separators in. */
  lemma {:induction false} CountJoin(parts: seq<string>, sep: char)
    requires |parts| > 0
    requires forall i :: 0 <= i < |parts| ==> sep !in parts[i]
    ensures Count(Join(parts, sep), sep) == |parts| - 1
  {
    var n := |parts|;
    if n > 1 {
      var init := parts[..n - 1];
      CountJoin(init, sep);
      CountAppend(Join(init, sep), [sep], sep);
      CountAppend(Join(init, sep) + [sep], parts[n - 1], sep);
    }
  }
}
