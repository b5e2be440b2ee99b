/** Go's `strings.Join`, and its partner: splitting a string at every
    occurrence of a one-character separator. */
module Strings {

  /** `strings.Join(elems, sep)`: "" for no elements, the element itself for
      one, otherwise the elements in order with `sep` between neighbours. */
  function Join(elems: seq<string>, sep: string): (s: string)
    ensures |elems| >= 1 ==> elems[0] <= s
  {
    if |elems| == 0 then ""
    else if |elems| == 1 then elems[0]
    else elems[0] + sep + Join(elems[1..], sep)
  }

  /** The pieces of `s` between occurrences of `c`, in order; a string with no
      `c` is a single piece. */
  function Split(s: string, c: char): (pieces: seq<string>)
    ensures |pieces| >= 1
  {
    if s == [] then [""]
    else
      var rest := Split(s[1..], c);
      if s[0] == c then [""] + rest
      else [[s[0]] + rest[0]] + rest[1..]
  }

  /** Joining two non-empty lists is joining each and putting `sep` between. */
  lemma {:induction false} JoinAppend(a: seq<string>, b: seq<string>, sep: string)
    requires |a| >= 1 && |b| >= 1
    ensures Join(a + b, sep) == Join(a, sep) + sep + Join(b, sep)
    decreases |a|
  {
    if |a| == 1 {
      assert (a + b)[1..] == b;
    } else {
      assert (a + b)[1..] == a[1..] + b;
      JoinAppend(a[1..], b, sep);
    }
  }

  /** One step of `Join` on the suffix of `elems` that starts at `k`. */
  lemma JoinSuffix(elems: seq<string>, k: nat, sep: string)
    requires k + 2 <= |elems|
    ensures Join(elems[k..], sep) == elems[k] + sep + Join(elems[k + 1..], sep)
  {
    assert elems[k..][1..] == elems[k + 1..];
  }

  /** The join of five elements, spelled out. */
  lemma JoinOfFive(elems: seq<string>, sep: string)
    requires |elems| == 5
    ensures Join(elems, sep) == elems[0] + sep + elems[1] + sep + elems[2] + sep + elems[3] + sep + elems[4]
  {
    JoinSuffix(elems, 0, sep);
    JoinSuffix(elems, 1, sep);
    JoinSuffix(elems, 2, sep);
    JoinSuffix(elems, 3, sep);
    assert elems[4..] == [elems[4]];
  }

  /** No element contains the character `c`. */
  predicate Avoids(elems: seq<string>, c: char) {
    forall i :: 0 <= i < |elems| ==> c !in elems[i]
  }

  lemma {:induction false} SplitPrefix(p: string, t: string, c: char)
    requires c !in p
    ensures Split(p + t, c) == [p + Split(t, c)[0]] + Split(t, c)[1..]
    decreases |p|
  {
    if p != [] {
      assert (p + t)[1..] == p[1..] + t;
      SplitPrefix(p[1..], t, c);
      assert [p[0]] + (p[1..] + Split(t, c)[0]) == p + Split(t, c)[0];
    } else {
      var pieces := Split(t, c);
      assert p + t == t && p + pieces[0] == pieces[0];
      assert pieces == [pieces[0]] + pieces[1..];
    }
  }

  /** Joining with a one-character separator that no element contains, then
      splitting at that character, gives back the elements. */
  lemma {:induction false} SplitJoin(elems: seq<string>, c: char)
    requires |elems| >= 1 && Avoids(elems, c)
    ensures Split(Join(elems, [c]), c) == elems
    decreases |elems|
  {
    if |elems| == 1 {
      SplitPrefix(elems[0], [], c);
      assert elems[0] + [] == elems[0];
    } else {
      var tail := Join(elems[1..], [c]);
      assert Avoids(elems[1..], c);
      SplitJoin(elems[1..], c);
      assert elems[0] + [c] + tail == elems[0] + ([c] + tail);
      SplitPrefix(elems[0], [c] + tail, c);
      assert ([c] + tail)[1..] == tail;
      assert Split([c] + tail, c) == [""] + elems[1..];
      assert elems[0] + "" == elems[0];
      assert elems == [elems[0]] + elems[1..];
    }
  }
}
