/** The two java.util.List operations the listener registry relies on beyond
    append and clear: searching for the first element that satisfies a test, and
    List.remove(Object), which deletes the first element equal to its argument.
    Java's `equals` is modelled by Dafny equality on the element type. */
module Lists {

  datatype Option<+T> = None | Some(value: T)

  /** The index of the first element of `s` satisfying `p`, or None when there is none. */
  function FirstIndex<T>(s: seq<T>, p: T -> bool): (r: Option<nat>)
    ensures r.None? <==> forall i :: 0 <= i < |s| ==> !p(s[i])
    ensures r.Some? ==> r.value < |s| && p(s[r.value])
    ensures r.Some? ==> forall j :: 0 <= j < r.value ==> !p(s[j])
  {
    if s == [] then None
    else if p(s[0]) then Some(0)
    else
      match FirstIndex(s[1..], p)
      case None => None
      case Some(k) => Some(k + 1)
  }

  /** The index of the first occurrence of `d` in `s` (List.indexOf), or None. */
  function IndexOf<T(==)>(s: seq<T>, d: T): (r: Option<nat>)
    ensures r.Some? <==> d in s
    ensures r.Some? ==> r.value < |s| && s[r.value] == d && d !in s[..r.value]
  {
    FirstIndex(s, x => x == d)
  }

  /** List.remove(Object): the list without the first occurrence of `d`;
      the list itself when `d` does not occur. */
  function RemoveFirst<T(==)>(s: seq<T>, d: T): (r: seq<T>)
    ensures d !in s ==> r == s
    ensures d in s ==> |r| == |s| - 1
    ensures d in s ==> exists i :: 0 <= i < |s| && s[i] == d && d !in s[..i] && r == s[..i] + s[i + 1..]
    ensures multiset(r) == multiset(s) - multiset{d}
  {
    match IndexOf(s, d)
    case None => s
    case Some(i) =>
      assert s == s[..i] + [s[i]] + s[i + 1..];
      s[..i] + s[i + 1..]
  }

  /** The first occurrence is unique, so any index that holds `d` with no `d`
      before it is the one RemoveFirst deletes at. */
  lemma RemoveFirstAt<T>(s: seq<T>, d: T, i: nat)
    requires i < |s| && s[i] == d && d !in s[..i]
    ensures RemoveFirst(s, d) == s[..i] + s[i + 1..]
  {
  }

  /** Removing keeps the relative order of every other element: putting `d` back
      where it was restores the original list. */
  lemma RemoveFirstReinsert<T>(s: seq<T>, d: T)
    requires d in s
    ensures var i := IndexOf(s, d).value;
            RemoveFirst(s, d)[..i] + [d] + RemoveFirst(s, d)[i..] == s
  {
    var i := IndexOf(s, d).value;
    var r := RemoveFirst(s, d);
    assert r == s[..i] + s[i + 1..];
    assert r[..i] == s[..i];
    assert r[i..] == s[i + 1..];
    assert s == s[..i] + [s[i]] + s[i + 1..];
  }

  /** Appending `d` and then removing `d` undoes the append when `d` was absent;
      otherwise it removes the earlier occurrence and the new one stays at the end. */
  lemma AddThenRemove<T>(s: seq<T>, d: T)
    ensures RemoveFirst(s + [d], d) == if d in s then RemoveFirst(s, d) + [d] else s
  {
    var t := s + [d];
    if d in s {
      var i := IndexOf(s, d).value;
      assert t[i] == d;
      assert t[..i] == s[..i];
      RemoveFirstAt(t, d, i);
      assert t[i + 1..] == s[i + 1..] + [d];
    } else {
      assert t[|s|] == d;
      assert t[..|s|] == s;
      RemoveFirstAt(t, d, |s|);
    }
  }
}
