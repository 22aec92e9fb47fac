/** The few functions of Go's `strings` package the program relies on,
    stated over `seq<char>`: exact comparison with no case folding. Go
    indexes strings by byte; here an index counts characters, which agree
    with Go's for ASCII text. */
module GoStrings {

  /** `strings.HasSuffix`: the last |suffix| characters of `s` are `suffix`. */
  predicate HasSuffix(s: string, suffix: string)
  {
    |suffix| <= |s| && s[|s| - |suffix|..] == suffix
  }

  /** `sub` occurs in `s` starting at index `i`. */
  predicate OccursAt(s: string, sub: string, i: nat)
  {
    i + |sub| <= |s| && s[i..i + |sub|] == sub
  }

  /** `strings.Contains`, computed by scanning the start positions left to right. */
  function Contains(s: string, sub: string): (found: bool)
    ensures found <==> exists i | 0 <= i <= |s| :: OccursAt(s, sub, i)
  {
    if OccursAt(s, sub, 0) then true
    else if |s| == 0 then false
    else
      var rest := Contains(s[1..], sub);
      assert forall i | 0 <= i < |s| :: OccursAt(s[1..], sub, i) == OccursAt(s, sub, i + 1) by {
        forall i | 0 <= i < |s| ensures OccursAt(s[1..], sub, i) == OccursAt(s, sub, i + 1) {
          if i + |sub| < |s| {
            assert s[1..][i..i + |sub|] == s[i + 1..i + 1 + |sub|];
          }
        }
      }
      assert rest ==> exists i | 0 <= i <= |s| :: OccursAt(s, sub, i) by {
        if rest {
          var i :| 0 <= i <= |s| - 1 && OccursAt(s[1..], sub, i);
          assert OccursAt(s, sub, i + 1);
        }
      }
      assert (exists i | 0 <= i <= |s| :: OccursAt(s, sub, i)) ==> rest by {
        if exists i | 0 <= i <= |s| :: OccursAt(s, sub, i) {
          var i :| 0 <= i <= |s| && OccursAt(s, sub, i);
          assert i != 0;
          assert OccursAt(s[1..], sub, i - 1);
        }
      }
      rest
  }

  /** `strings.Index` for a one-character needle: the first position of `c`,
      or -1 when `c` does not occur. */
  function IndexOf(s: string, c: char): (i: int)
    ensures i == -1 <==> c !in s
    ensures i != -1 ==> 0 <= i < |s| && s[i] == c && c !in s[..i]
  {
    if |s| == 0 then -1
    else if s[0] == c then 0
    else
      var k := IndexOf(s[1..], c);
      if k == -1 then -1
      else
        assert s[..k + 1] == [s[0]] + s[1..][..k];
        k + 1
  }

  /** Text put in front never hides an occurrence. */
  lemma ContainsAfterPrefix(p: string, s: string, sub: string)
    requires Contains(s, sub)
    ensures Contains(p + s, sub)
  {
    var i :| 0 <= i <= |s| && OccursAt(s, sub, i);
    assert (p + s)[|p| + i..|p| + i + |sub|] == s[i..i + |sub|];
    assert OccursAt(p + s, sub, |p| + i);
  }

  /** A first occurrence found by other means is the one `IndexOf` reports. */
  lemma IndexOfIs(s: string, c: char, k: nat)
    requires k < |s| && s[k] == c && c !in s[..k]
    ensures IndexOf(s, c) == k
  {
    assert s[k] in s;
  }

  /** A string without the separator splits to itself alone. */
  lemma SplitWithoutSep(s: string, sep: char)
    requires sep !in s
    ensures Split(s, sep) == [s]
  {
  }

  /** The inverse of `Split`: the parts glued back with `sep` between them. */
  function Join(parts: seq<string>, sep: char): string
    requires |parts| > 0
  {
    if |parts| == 1 then parts[0] else parts[0] + [sep] + Join(parts[1..], sep)
  }

  /** `strings.Split` with a one-character separator. As in Go, the result
      always has at least one part, so the empty string splits to `[""]`. */
  function Split(s: string, sep: char): (parts: seq<string>)
    ensures |parts| > 0
    ensures forall k | 0 <= k < |parts| :: sep !in parts[k]
    ensures Join(parts, sep) == s
    decreases |s|
  {
    var k := IndexOf(s, sep);
    if k == -1 then [s]
    else
      var rest := Split(s[k + 1..], sep);
      JoinCons(s[..k], rest, sep);
      assert s == s[..k] + [sep] + s[k + 1..];
      [s[..k]] + rest
  }

  lemma JoinCons(p: string, rest: seq<string>, sep: char)
    requires |rest| > 0
    ensures Join([p] + rest, sep) == p + [sep] + Join(rest, sep)
  {
    assert ([p] + rest)[1..] == rest;
  }

  /** Splitting undoes joining whenever no part contains the separator. */
  lemma {:induction false} SplitJoin(parts: seq<string>, sep: char)
    requires |parts| > 0
    requires forall k | 0 <= k < |parts| :: sep !in parts[k]
    ensures Split(Join(parts, sep), sep) == parts
  {
    if |parts| > 1 {
      var s := Join(parts, sep);
      var p := parts[0];
      var tail := Join(parts[1..], sep);
      assert s == p + [sep] + tail;
      assert s[..|p|] == p;
      IndexOfIs(s, sep, |p|);
      assert s[|p| + 1..] == tail;
      SplitJoin(parts[1..], sep);
      assert parts == [p] + parts[1..];
    }
  }

  /** One leading space more makes no difference to `Trim`. */
  lemma TrimLeadingSpace(s: string)
    ensures Trim(" " + s) == Trim(s)
  {
    assert (" " + s)[1..] == s;
  }

  /** `strings.TrimLeft(s, " ")`: leading spaces removed. */
  function TrimLeft(s: string): (r: string)
    ensures |r| <= |s| && r == s[|s| - |r|..]
    ensures forall i | 0 <= i < |s| - |r| :: s[i] == ' '
    ensures |r| > 0 ==> r[0] != ' '
  {
    if |s| > 0 && s[0] == ' ' then TrimLeft(s[1..]) else s
  }

  /** `strings.TrimRight(s, " ")`: trailing spaces removed. */
  function TrimRight(s: string): (r: string)
    ensures |r| <= |s| && r == s[..|r|]
    ensures forall i | |r| <= i < |s| :: s[i] == ' '
    ensures |r| > 0 ==> r[|r| - 1] != ' '
  {
    if |s| > 0 && s[|s| - 1] == ' ' then TrimRight(s[..|s| - 1]) else s
  }

  /** `r` is the part of `s` starting at `i`, and everything of `s` around
      it is spaces. */
  predicate SpacesAround(s: string, r: string, i: nat)
  {
    && i + |r| <= |s|
    && r == s[i..i + |r|]
    && (forall j | 0 <= j < i :: s[j] == ' ')
    && (forall j | i + |r| <= j < |s| :: s[j] == ' ')
  }

  /** `strings.Trim(s, " ")`: the cut set is the space character only, so
      tabs and other white space are kept. */
  function Trim(s: string): (r: string)
    ensures exists i: nat :: SpacesAround(s, r, i)
    ensures |r| > 0 ==> r[0] != ' ' && r[|r| - 1] != ' '
  {
    var l := TrimLeft(s);
    var r := TrimRight(l);
    var i := |s| - |l|;
    assert SpacesAround(s, r, i);
    r
  }
}
