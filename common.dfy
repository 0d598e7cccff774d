/** Shared vocabulary: identifiers, Option/Result, and first-match lookup. */
module Common {

  /** Tab and tab-context ids are the strings the components pass as names. */
  type TabId = string

  /** A handle on a spawned actor. Spawning belongs to the statechart runtime,
      which hands out fresh handles; the model only compares them. */
  type ActorRef = nat

  datatype Option<+T> = None | Some(value: T)

  datatype Result<+T, +E> = Success(value: T) | Failure(error: E)

  /** The index `Array.prototype.find` stops at: the first position holding `x`. */
  function FirstIndex<T(==)>(s: seq<T>, x: T): (r: Option<nat>)
    ensures r.None? <==> x !in s
    ensures r.Some? ==> r.value < |s| && s[r.value] == x
    ensures r.Some? ==> forall j :: 0 <= j < r.value ==> s[j] != x
  {
    if |s| == 0 then None
    else if s[0] == x then Some(0)
    else match FirstIndex(s[1..], x)
      case None => None
      case Some(i) => Some(i + 1)
  }

  /** Any position that holds `x` with no `x` before it is the one `FirstIndex` finds. */
  lemma FirstIndexUnique<T>(s: seq<T>, x: T, k: nat)
    requires k < |s| && s[k] == x
    requires forall j :: 0 <= j < k ==> s[j] != x
    ensures FirstIndex(s, x) == Some(k)
  {
  }

  /** Appending never changes an earlier first match; otherwise the new last
      element is found if it matches. */
  lemma FirstIndexAppend<T>(s: seq<T>, y: T, x: T)
    ensures FirstIndex(s + [y], x) ==
      if x in s then FirstIndex(s, x) else if y == x then Some(|s|) else None
  {
    var t := s + [y];
    if x in s {
      var k := FirstIndex(s, x).value;
      FirstIndexUnique(t, x, k);
    } else if y == x {
      FirstIndexUnique(t, x, |s|);
    }
  }
}
