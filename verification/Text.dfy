/** Searching, splitting and joining byte strings.

    A `string` stands for a Python 2 `str`, one character per byte; nothing here depends on the
    character being below 256, so every statement holds for all byte strings.
*/
module Text {
  import opened Optional

  // ----- occurrences

  predicate OccursAt(d: string, s: string, k: nat) {
    k + |d| <= |s| && s[k..k + |d|] == d
  }

  ghost predicate Occurs(d: string, s: string) {
    exists k: nat :: OccursAt(d, s, k)
  }

  /** No proper non-empty prefix of `d` is also a suffix, so two occurrences never overlap. */
  ghost predicate Borderless(d: string) {
    d != "" && forall n :: 0 < n < |d| ==> d[..n] != d[|d| - n..]
  }

  /** The first occurrence of `d` in `s`. */
  function Find(d: string, s: string): (r: Option<nat>)
    ensures r.Some? ==> OccursAt(d, s, r.value) && forall j: nat :: j < r.value ==> !OccursAt(d, s, j)
    ensures r.None? ==> !Occurs(d, s)
    decreases |s|
  {
    if |s| < |d| then None
    else if s[..|d|] == d then Some(0)
    else
      OccursInTail(d, s);
      match Find(d, s[1..])
      case None => None
      case Some(k) => Some(k + 1)
  }

  lemma OccursInTail(d: string, s: string)
    requires s != ""
    ensures forall k: nat :: k > 0 ==> (OccursAt(d, s, k) <==> OccursAt(d, s[1..], k - 1))
    ensures forall j: nat :: OccursAt(d, s[1..], j) <==> OccursAt(d, s, j + 1)
  {
  }

  /** Where `d` occurs in a concatenation: in one half, or across the seam. */
  lemma OccursAtSplit(d: string, x: string, y: string, k: nat)
    requires OccursAt(d, x + y, k)
    ensures k + |d| <= |x| ==> OccursAt(d, x, k)
    ensures k >= |x| ==> OccursAt(d, y, k - |x|)
  {
  }

  lemma OccurrenceHasFirst(d: string, s: string, k: nat)
    requires d != "" && OccursAt(d, s, k)
    ensures k < |s| && s[k] == d[0]
    ensures d[0] in s
  {
  }

  lemma OccursInSuffix(d: string, s: string, k: nat)
    requires k <= |s| && Occurs(d, s[k..])
    ensures Occurs(d, s)
  {
    var j: nat :| OccursAt(d, s[k..], j);
    assert s[k + j..k + j + |d|] == s[k..][j..j + |d|];
    assert OccursAt(d, s, k + j);
  }

  lemma OccursInPrefix(d: string, s: string, k: nat)
    requires k <= |s| && Occurs(d, s[..k])
    ensures Occurs(d, s)
  {
    var j: nat :| OccursAt(d, s[..k], j);
    assert s[j..j + |d|] == s[..k][j..j + |d|];
    assert OccursAt(d, s, j);
  }

  /** An occurrence that straddles the end of `v` and the delimiter after it is a border. */
  lemma StraddlingIsBorder(d: string, v: string, rest: string, j: nat)
    requires OccursAt(d, v + d + rest, j) && j < |v| < j + |d|
    ensures !Borderless(d)
  {
    var s, n := v + d + rest, j + |d| - |v|;
    assert d[|d| - n..] == s[|v|..|v| + n] == d[..n];
  }

  /** Where a borderless delimiter follows a value that does not contain it, it is found there. */
  lemma FindAfter(d: string, v: string, rest: string)
    requires Borderless(d) && !Occurs(d, v)
    ensures Find(d, v + d + rest) == Some(|v|)
  {
    var s := v + d + rest;
    assert OccursAt(d, s, |v|);
    forall j: nat | OccursAt(d, s, j)
      ensures j >= |v|
    {
      assert s == v + (d + rest);
      OccursAtSplit(d, v, d + rest, j);
      if j < |v| < j + |d| {
        StraddlingIsBorder(d, v, rest, j);
      }
    }
  }

  lemma TakeDrop(x: string, y: string)
    ensures x <= x + y && (x + y)[..|x|] == x && (x + y)[|x|..] == y
  {
  }

  // ----- joining and splitting

  /** sep.join(pieces) */
  function Join(sep: string, pieces: seq<string>): string {
    if pieces == [] then ""
    else if |pieces| == 1 then pieces[0]
    else pieces[0] + sep + Join(sep, pieces[1..])
  }

  lemma JoinCons(sep: string, first: string, rest: seq<string>)
    requires rest != []
    ensures Join(sep, [first] + rest) == first + sep + Join(sep, rest)
  {
  }

  /** s.split(sep), for a non-empty separator. */
  function Split(sep: string, s: string): (pieces: seq<string>)
    requires sep != ""
    ensures pieces != []
    ensures forall i :: 0 <= i < |pieces| ==> !Occurs(sep, pieces[i])
    decreases |s|
  {
    match Find(sep, s)
    case None => [s]
    case Some(k) =>
      PrefixBeforeFirst(sep, s, k);
      [s[..k]] + Split(sep, s[k + |sep|..])
  }

  lemma PrefixBeforeFirst(d: string, s: string, k: nat)
    requires d != "" && k <= |s|
    requires forall j: nat :: j < k ==> !OccursAt(d, s, j)
    ensures !Occurs(d, s[..k])
  {
    if j: nat :| OccursAt(d, s[..k], j) {
      assert s[j..j + |d|] == s[..k][j..j + |d|];
      assert OccursAt(d, s, j);
    }
  }

  lemma SplitFirst(sep: string, s: string)
    requires sep != ""
    ensures Find(sep, s) == None ==> Split(sep, s) == [s]
    ensures Find(sep, s).Some? ==>
              var k := Find(sep, s).value;
              Split(sep, s) == [s[..k]] + Split(sep, s[k + |sep|..])
  {
  }

  /** Joining the pieces again gives the string that was split. */
  lemma {:induction false} JoinUndoesSplit(sep: string, s: string)
    requires sep != ""
    ensures Join(sep, Split(sep, s)) == s
    decreases |s|
  {
    var r := Find(sep, s);
    if r.Some? {
      var k := r.value;
      JoinUndoesSplit(sep, s[k + |sep|..]);
      assert s == s[..k] + sep + s[k + |sep|..];
    }
  }

  /** Splitting gives back the pieces that were joined, if none of them contains the separator. */
  lemma {:induction false} SplitUndoesJoin(sep: string, pieces: seq<string>)
    requires Borderless(sep) && pieces != []
    requires forall i :: 0 <= i < |pieces| ==> !Occurs(sep, pieces[i])
    ensures Split(sep, Join(sep, pieces)) == pieces
    decreases pieces
  {
    var s := Join(sep, pieces);
    if |pieces| > 1 {
      var rest := Join(sep, pieces[1..]);
      FindAfter(sep, pieces[0], rest);
      assert s[..|pieces[0]|] == pieces[0];
      assert s[|pieces[0]| + |sep|..] == rest;
      SplitUndoesJoin(sep, pieces[1..]);
    }
  }

  /** The number of positions at which `d` occurs, overlapping or not. */
  function Count(d: string, s: string): nat
    requires d != ""
    decreases |s|
  {
    if |s| < |d| then 0 else (if s[..|d|] == d then 1 else 0) + Count(d, s[1..])
  }

  lemma {:induction false} CountSkips(d: string, s: string, n: nat)
    requires d != "" && n <= |s|
    requires forall j: nat :: j < n ==> !OccursAt(d, s, j)
    ensures Count(d, s) == Count(d, s[n..])
    decreases n
  {
    if n == 0 {
    } else {
      assert s[1..][n - 1..] == s[n..];
      if |s| < |d| {
      } else {
        assert !OccursAt(d, s, 0);
        OccursInTail(d, s);
        CountSkips(d, s[1..], n - 1);
      }
    }
  }

  /** An occurrence that begins inside another one is a border. */
  lemma OverlapIsBorder(d: string, rest: string, j: nat)
    requires 0 < j < |d| && OccursAt(d, d + rest, j)
    ensures !Borderless(d)
  {
    assert d[..|d| - j] == (d + rest)[j..|d|] == d[j..];
  }

  lemma CountAfter(d: string, rest: string)
    requires Borderless(d)
    ensures Count(d, d + rest) == 1 + Count(d, rest)
  {
    var s := d + rest;
    OccursInTail(d, s);
    forall j: nat | j < |d| - 1
      ensures !OccursAt(d, s[1..], j)
    {
      if OccursAt(d, s, j + 1) {
        OverlapIsBorder(d, rest, j + 1);
      }
    }
    CountSkips(d, s[1..], |d| - 1);
    assert s[1..][|d| - 1..] == rest;
  }

  /** Nothing is counted up to the first occurrence, and that one is counted once. */
  lemma CountFirst(d: string, s: string)
    requires Borderless(d)
    ensures Find(d, s) == None ==> Count(d, s) == 0
    ensures Find(d, s).Some? ==> Count(d, s) == 1 + Count(d, s[Find(d, s).value + |d|..])
  {
    var r := Find(d, s);
    if r == None {
      CountSkips(d, s, |s|);
    } else {
      var rest := s[r.value + |d|..];
      CountSkips(d, s, r.value);
      CountAfter(d, rest);
      hide Count, Find, Borderless;
      assert s[r.value..] == d + rest;
    }
  }

  /** Splitting at a borderless separator uses up every occurrence there is. */
  lemma {:induction false} SplitUsesEveryOccurrence(d: string, s: string)
    requires Borderless(d)
    ensures Count(d, s) == |Split(d, s)| - 1
    decreases |s|
  {
    CountFirst(d, s);
    SplitFirst(d, s);
    hide Count, Find, Borderless, Split;
    var r := Find(d, s);
    if r == None {
    } else {
      SplitUsesEveryOccurrence(d, s[r.value + |d|..]);
    }
  }

  // ----- separators

  /** A separator whose first character comes once only is borderless. */
  lemma FirstOnlyIsBorderless(d: string)
    requires d != "" && d[0] !in d[1..]
    ensures Borderless(d)
  {
  }
}
