/**
 * `filepath.Join` from Go's `path/filepath` package on a system whose
 * separator is '/'. The final `Clean` step of the real function is not
 * modelled: the result is the non-empty elements joined with '/'.
 */
module FilePath {
  import Strings

  /** The elements that are not empty, in their original order. */
  function NonEmpty(elems: seq<string>): (r: seq<string>)
    ensures forall k :: 0 <= k < |r| ==> r[k] != ""
    ensures |r| <= |elems|
  {
    if elems == [] then []
    else (if elems[0] == "" then [] else [elems[0]]) + NonEmpty(elems[1..])
  }

  /** `filepath.Join` without `Clean`: empty elements are ignored. */
  function Join(elems: seq<string>): string
  {
    Strings.Join(NonEmpty(elems), '/')
  }

  lemma {:induction false} NonEmptySnoc(elems: seq<string>, x: string)
    ensures NonEmpty(elems + [x]) == NonEmpty(elems) + (if x == "" then [] else [x])
    decreases |elems|
  {
    if elems == [] {
      assert elems + [x] == [x];
    } else {
      assert (elems + [x])[1..] == elems[1..] + [x];
      NonEmptySnoc(elems[1..], x);
    }
  }

  /** Joining non-empty parts gives a non-empty string. */
  lemma {:induction false} JoinNonEmptyParts(parts: seq<string>)
    requires forall k :: 0 <= k < |parts| ==> parts[k] != ""
    ensures Strings.Join(parts, '/') == "" <==> parts == []
    decreases |parts|
  {
    if |parts| > 1 {
      JoinNonEmptyParts(parts[1..]);
    }
  }

  /**
   * `filepath.Join(dir, elem)` of two elements: an empty element is dropped,
   * otherwise the two are joined with one '/'.
   */
  function Extend(dir: string, elem: string): string
  {
    if elem == "" then dir else if dir == "" then elem else dir + "/" + elem
  }

  /**
   * Joining one more element extends the join of the others by that element:
   * nothing changes when it is empty, and it stands alone when everything
   * before it was empty.
   */
  lemma JoinSnoc(elems: seq<string>, x: string)
    ensures Join(elems + [x]) == Extend(Join(elems), x)
  {
    NonEmptySnoc(elems, x);
    if x != "" {
      JoinNonEmptyParts(NonEmpty(elems));
      if NonEmpty(elems) != [] {
        Strings.JoinSnoc(NonEmpty(elems), x, '/');
      }
    } else {
      assert NonEmpty(elems + [x]) == NonEmpty(elems);
    }
  }
}
