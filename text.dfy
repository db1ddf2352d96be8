/**
 * The handful of Python string operations the catalog code uses, on
 * `string` (a sequence of code points, as a Python `str` is).
 */
module Text {
  import opened Results

  /** str.startswith */
  predicate StartsWith(s: string, prefix: string)
  {
    |prefix| <= |s| && s[..|prefix|] == prefix
  }

  /** pat occurs in s starting at position k. */
  predicate OccursAt(s: string, pat: string, k: int)
  {
    0 <= k && k + |pat| <= |s| && forall j :: 0 <= j < |pat| ==> s[k + j] == pat[j]
  }

  lemma OccursAtSlice(s: string, pat: string, k: int)
    requires OccursAt(s, pat, k)
    ensures s[k..k + |pat|] == pat
    ensures s == s[..k] + pat + s[k + |pat|..]
  {
    assert s == s[..k] + s[k..k + |pat|] + s[k + |pat|..];
  }

  /** The first position at or after i at which pat occurs in s, if any. */
  function FindFrom(s: string, pat: string, i: nat): (r: Option<nat>)
    ensures r.Some? ==> i <= r.value && OccursAt(s, pat, r.value)
    ensures r.Some? ==> forall k :: i <= k < r.value ==> !OccursAt(s, pat, k)
    ensures r.None? ==> forall k :: i <= k ==> !OccursAt(s, pat, k)
    decreases |s| - i
  {
    if i + |pat| > |s| then None
    else if OccursAt(s, pat, i) then Some(i)
    else FindFrom(s, pat, i + 1)
  }

  /**
   * The first position at which pat occurs in s, if any: what the substring
   * test `in` and `split` rely on.
   */
  function Find(s: string, pat: string): (r: Option<nat>)
    ensures r.Some? ==> OccursAt(s, pat, r.value)
    ensures r.Some? ==> forall k :: 0 <= k < r.value ==> !OccursAt(s, pat, k)
    ensures r.None? ==> forall k :: !OccursAt(s, pat, k)
  {
    FindFrom(s, pat, 0)
  }

  /** The first occurrence is determined by where pat occurs. */
  lemma FindIsFirst(s: string, pat: string, k: nat)
    requires OccursAt(s, pat, k)
    requires forall j :: 0 <= j < k ==> !OccursAt(s, pat, j)
    ensures Find(s, pat) == Some(k)
  {
  }

  /** str.split(sep) for a non-empty separator. */
  function Split(s: string, sep: string): (parts: seq<string>)
    requires |sep| > 0
    ensures |parts| >= 1
    ensures Find(s, sep).None? ==> parts == [s]
    ensures Find(s, sep).Some? ==> |parts| >= 2 && parts[0] == s[..Find(s, sep).value]
    ensures forall i :: 0 <= i < |parts| ==> Find(parts[i], sep).None?
    decreases |s|
  {
    match Find(s, sep)
    case None => [s]
    case Some(k) =>
      assert forall j :: OccursAt(s[..k], sep, j) ==> OccursAt(s, sep, j);
      [s[..k]] + Split(s[k + |sep|..], sep)
  }

  /** Python's s[1:] */
  function DropFirst(s: string): string
  {
    if |s| == 0 then s else s[1..]
  }

  /** Python's s[:-1] */
  function DropLast(s: string): string
  {
    if |s| == 0 then s else s[..|s| - 1]
  }

  /** sep.join(items) */
  function Join(sep: string, items: seq<string>): string
  {
    if |items| == 0 then ""
    else if |items| == 1 then items[0]
    else items[0] + sep + Join(sep, items[1..])
  }

  /** Joining the parts of a split gives back the string: sep.join(s.split(sep)) == s. */
  lemma {:induction false} JoinSplit(s: string, sep: string)
    requires |sep| > 0
    ensures Join(sep, Split(s, sep)) == s
    decreases |s|
  {
    match Find(s, sep)
    case None =>
    case Some(k) =>
      var rest := s[k + |sep|..];
      JoinSplit(rest, sep);
      OccursAtSlice(s, sep, k);
      var parts := Split(s, sep);
      assert parts == [s[..k]] + Split(rest, sep);
      assert parts[1..] == Split(rest, sep);
  }

  /**
   * Splitting a join gives back the items, provided no item contains the
   * first character of the separator.
   */
  lemma {:induction false} SplitJoin(sep: string, items: seq<string>)
    requires |sep| >= 1 && |items| >= 1
    requires forall i :: 0 <= i < |items| ==> sep[0] !in items[i]
    ensures Split(Join(sep, items), sep) == items
    decreases |items|
  {
    var s := Join(sep, items);
    if |items| == 1 {
      NotOccurring(s, sep);
    } else {
      JoinFindsFirst(sep, items);
      var rest := items[1..];
      assert forall i :: 0 <= i < |rest| ==> sep[0] !in rest[i] by {
        assert forall i :: 0 <= i < |rest| ==> rest[i] == items[i + 1];
      }
      SplitJoin(sep, rest);
      var k := |items[0]|;
      assert Split(s, sep) == [s[..k]] + Split(s[k + |sep|..], sep);
      assert items == [items[0]] + rest;
    }
  }

  /** A string without the separator's first character has no occurrence of the separator. */
  lemma NotOccurring(s: string, sep: string)
    requires |sep| >= 1 && sep[0] !in s
    ensures Find(s, sep).None?
  {
    forall k ensures !OccursAt(s, sep, k) {
      if 0 <= k < |s| {
        assert s[k] in s && s[k + 0] == s[k];
      }
    }
  }

  /** In a join of at least two items, the first separator comes right after the first item. */
  lemma JoinFindsFirst(sep: string, items: seq<string>)
    requires |sep| >= 1 && |items| >= 2 && sep[0] !in items[0]
    ensures Find(Join(sep, items), sep) == Some(|items[0]|)
    ensures Join(sep, items)[..|items[0]|] == items[0]
    ensures Join(sep, items)[|items[0]| + |sep|..] == Join(sep, items[1..])
  {
    var s := Join(sep, items);
    var rest := Join(sep, items[1..]);
    assert s == items[0] + sep + rest;
    var k := |items[0]|;
    assert OccursAt(s, sep, k) by {
      forall j | 0 <= j < |sep| ensures s[k + j] == sep[j] {
        assert s[k + j] == (items[0] + sep)[k + j];
      }
    }
    forall j | 0 <= j < k ensures !OccursAt(s, sep, j) {
      assert s[j + 0] == items[0][j];
    }
    FindIsFirst(s, sep, k);
  }

  /** Iterating over a Python str yields its characters as one-character strings. */
  function Chars(s: string): (r: seq<string>)
    ensures |r| == |s|
    ensures forall i :: 0 <= i < |s| ==> r[i] == [s[i]]
  {
    seq(|s|, i requires 0 <= i < |s| => [s[i]])
  }

  /**
   * str.isspace for one character: the characters Python's str.strip()
   * removes when called without an argument.
   */
  predicate IsSpace(c: char)
  {
    var n := c as int;
    (0x09 <= n <= 0x0D) || (0x1C <= n <= 0x20) || n == 0x85 || n == 0xA0 ||
    n == 0x1680 || (0x2000 <= n <= 0x200A) || n == 0x2028 || n == 0x2029 ||
    n == 0x202F || n == 0x205F || n == 0x3000
  }

  predicate AllSpace(s: string)
  {
    forall i :: 0 <= i < |s| ==> IsSpace(s[i])
  }

  /** The number of whitespace characters s starts with. */
  function LeadingSpace(s: string): (k: nat)
    ensures k <= |s| && AllSpace(s[..k])
    ensures k < |s| ==> !IsSpace(s[k])
    decreases |s|
  {
    if |s| > 0 && IsSpace(s[0]) then
      var k := LeadingSpace(s[1..]);
      assert forall i :: 1 <= i < k + 1 ==> s[i] == s[1..][..k][i - 1];
      k + 1
    else 0
  }

  /** The length of s without the whitespace it ends with. */
  function TrailingStart(s: string): (k: nat)
    ensures k <= |s| && AllSpace(s[k..])
    ensures k > 0 ==> !IsSpace(s[k - 1])
    decreases |s|
  {
    if |s| > 0 && IsSpace(s[|s| - 1]) then
      var k := TrailingStart(s[..|s| - 1]);
      assert forall i :: k <= i < |s| - 1 ==> s[i] == s[..|s| - 1][k..][i - k];
      k
    else |s|
  }

  /** str.lstrip() */
  function StripLeft(s: string): (r: string)
    ensures r != [] ==> !IsSpace(r[0])
  {
    s[LeadingSpace(s)..]
  }

  /** str.rstrip() */
  function StripRight(s: string): (r: string)
    ensures r != [] ==> !IsSpace(r[|r| - 1])
  {
    s[..TrailingStart(s)]
  }

  /** str.strip(): the string without its leading and trailing whitespace. */
  function Strip(s: string): (r: string)
    ensures r != [] ==> !IsSpace(r[0]) && !IsSpace(r[|r| - 1])
  {
    var l := StripLeft(s);
    var r := StripRight(l);
    assert r != [] ==> r[0] == l[0];
    r
  }

  lemma {:induction false} LeadingSpaceSkips(left: string, x: string)
    requires AllSpace(left)
    ensures LeadingSpace(left + x) == |left| + LeadingSpace(x)
    decreases |left|
  {
    if |left| > 0 {
      assert (left + x)[0] == left[0];
      assert (left + x)[1..] == left[1..] + x;
      assert AllSpace(left[1..]) by {
        assert forall i :: 0 <= i < |left[1..]| ==> left[1..][i] == left[i + 1];
      }
      LeadingSpaceSkips(left[1..], x);
    } else {
      assert left + x == x;
    }
  }

  lemma StripLeftSkipsSpace(left: string, x: string)
    requires AllSpace(left)
    ensures StripLeft(left + x) == StripLeft(x)
  {
    LeadingSpaceSkips(left, x);
    assert (left + x)[|left| + LeadingSpace(x)..] == x[LeadingSpace(x)..];
  }

  lemma {:induction false} TrailingStartSkips(y: string, right: string)
    requires AllSpace(right)
    ensures TrailingStart(y + right) == TrailingStart(y)
    decreases |right|
  {
    if |right| > 0 {
      var r' := right[..|right| - 1];
      assert (y + right)[|y + right| - 1] == right[|right| - 1];
      assert (y + right)[..|y + right| - 1] == y + r';
      assert AllSpace(r') by {
        assert forall i :: 0 <= i < |r'| ==> r'[i] == right[i];
      }
      TrailingStartSkips(y, r');
    } else {
      assert y + right == y;
    }
  }

  lemma StripRightSkipsSpace(y: string, right: string)
    requires AllSpace(right)
    ensures StripRight(y + right) == StripRight(y)
  {
    TrailingStartSkips(y, right);
    assert (y + right)[..TrailingStart(y)] == y[..TrailingStart(y)];
  }

  /** Strip undoes whitespace padding around a string that has none at its ends. */
  lemma StripPadded(left: string, m: string, right: string)
    requires AllSpace(left) && AllSpace(right)
    requires m != [] ==> !IsSpace(m[0]) && !IsSpace(m[|m| - 1])
    ensures Strip(left + m + right) == m
  {
    var x := m + right;
    assert left + m + right == left + x;
    StripLeftSkipsSpace(left, x);
    if m == [] {
      assert x == right + [];
      LeadingSpaceSkips(right, []);
      assert StripLeft(x) == [];
    } else {
      assert x[0] == m[0];
      assert StripLeft(x) == x;
      StripRightSkipsSpace(m, right);
      assert StripRight(m) == m;
    }
  }

  /** str.replace(c, '') for a one-character string c. */
  function Remove(s: string, c: char): (r: string)
    ensures c !in r
    ensures |r| <= |s|
    ensures c !in s ==> r == s
  {
    if |s| == 0 then ""
    else (if s[0] == c then "" else [s[0]]) + Remove(s[1..], c)
  }

  /** Removing one character keeps any other character absent. */
  lemma {:induction false} RemoveKeepsAbsent(s: string, c: char, d: char)
    requires d !in s
    ensures d !in Remove(s, c)
    decreases |s|
  {
    if |s| > 0 {
      assert d !in s[1..] by {
        assert forall i :: 0 <= i < |s[1..]| ==> s[1..][i] == s[i + 1];
      }
      RemoveKeepsAbsent(s[1..], c, d);
    }
  }

  lemma {:induction false} RemoveConcat(a: string, b: string, c: char)
    ensures Remove(a + b, c) == Remove(a, c) + Remove(b, c)
    decreases |a|
  {
    if |a| > 0 {
      assert (a + b)[1..] == a[1..] + b;
      RemoveConcat(a[1..], b, c);
    } else {
      assert a + b == b;
    }
  }
}
