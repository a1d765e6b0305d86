/** The JavaScript array operations the spreadsheet grid is built from,
    modelled on Dafny sequences. */
module JsArray {

  /** `s.filter((_, index) => index !== i)`: every element whose position
      differs from `i`, in their original order. The walk goes from the back
      so that the position of the element being tested is `|s| - 1`. */
  function FilterOutIndex<T>(s: seq<T>, i: int): (r: seq<T>)
    ensures |r| == if 0 <= i < |s| then |s| - 1 else |s|
  {
    if |s| == 0 then []
    else FilterOutIndex(s[..|s| - 1], i) + (if |s| - 1 == i then [] else [s[|s| - 1]])
  }

  /** The filter removes exactly the element at `i` when `i` is a position of
      `s`, and nothing when it is not. */
  lemma {:induction false} FilterOutIndexRemovesAt<T>(s: seq<T>, i: int)
    ensures FilterOutIndex(s, i) == if 0 <= i < |s| then s[..i] + s[i + 1..] else s
  {
    if |s| > 0 {
      var init, last := s[..|s| - 1], s[|s| - 1];
      var kept := FilterOutIndex(init, i);
      FilterOutIndexRemovesAt(init, i);
      if i == |s| - 1 {
        assert FilterOutIndex(s, i) == kept == init;
        assert init == s[..i] + s[i + 1..];
      } else if 0 <= i < |s| - 1 {
        assert FilterOutIndex(s, i) == kept + [last];
        assert kept == s[..i] + init[i + 1..];
        assert init[i + 1..] + [last] == s[i + 1..];
        assert (s[..i] + init[i + 1..]) + [last] == s[..i] + (init[i + 1..] + [last]);
      } else {
        assert FilterOutIndex(s, i) == init + [last] == s;
      }
    }
  }

  /** After removing position `i`, position `k` holds what `k` held before
      when it lies in front of `i`, and what `k + 1` held otherwise. */
  lemma FilterOutIndexAt<T>(s: seq<T>, i: int, k: int)
    requires 0 <= i < |s| && 0 <= k < |s| - 1
    ensures |FilterOutIndex(s, i)| == |s| - 1
    ensures FilterOutIndex(s, i)[k] == s[if k < i then k else k + 1]
  {
    FilterOutIndexRemovesAt(s, i);
  }

  /** `parts.join(sep)`: the parts with `sep` between neighbours; an empty
      array joins to the empty string. */
  function Join(parts: seq<string>, sep: string): string
  {
    if |parts| == 0 then ""
    else if |parts| == 1 then parts[0]
    else parts[0] + sep + Join(parts[1..], sep)
  }

  /** One part in front of a non-empty array is followed by one separator. */
  lemma JoinCons(head: string, tail: seq<string>, sep: string)
    requires |tail| > 0
    ensures Join([head] + tail, sep) == head + sep + Join(tail, sep)
  {
    assert ([head] + tail)[1..] == tail;
  }

  /** Joining two non-empty arrays one after the other puts exactly one
      separator between them. */
  lemma {:induction false} JoinAppend(a: seq<string>, b: seq<string>, sep: string)
    requires |a| > 0 && |b| > 0
    ensures Join(a + b, sep) == Join(a, sep) + sep + Join(b, sep)
  {
    if |a| == 1 {
      assert (a + b)[1..] == b;
    } else {
      assert (a + b)[1..] == a[1..] + b;
      JoinAppend(a[1..], b, sep);
    }
  }

  /** When no part contains the character `ch`, every occurrence of `ch` in
      the joined string comes from a separator. */
  lemma {:induction false} JoinCount(parts: seq<string>, sep: string, ch: char)
    requires |parts| > 0
    requires forall k :: 0 <= k < |parts| ==> ch !in parts[k]
    ensures multiset(Join(parts, sep))[ch] == (|parts| - 1) * multiset(sep)[ch]
  {
    assert multiset(parts[0])[ch] == 0;
    if |parts| > 1 {
      var n, m := |parts| - 1, multiset(sep)[ch];
      var rest := Join(parts[1..], sep);
      JoinCount(parts[1..], sep, ch);
      MulSucc(n - 1, m);
      assert multiset(Join(parts, sep))[ch] == m + multiset(rest)[ch] by {
        assert Join(parts, sep) == parts[0] + sep + rest;
        assert multiset(parts[0] + sep + rest) == multiset(parts[0]) + multiset(sep) + multiset(rest);
      }
    }
  }

  lemma MulSucc(k: int, m: int)
    ensures (k + 1) * m == k * m + m
  {
  }
}
