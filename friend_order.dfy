/** The order in which friends are listed (PurchaseForm.tsx:59):
    `friends.sort((a, b) => a.name > b.name ? 1 : -1)` reorders the friends
    array in place, ascending by name in UTF-16 code-unit order, so the
    comparison is case-sensitive. The comparator never answers 0, so the
    order among friends with equal names is left open. */
module FriendOrder {
  import opened PurchaseTypes
  import opened JsText

  /** The comparator: 1 puts `a` after `b`, -1 puts it before. */
  function CompareByName(a: UserShortInfo, b: UserShortInfo): (r: int)
    ensures r == 1 || r == -1
    ensures r == 1 <==> UnitsLess(Utf16(b.name), Utf16(a.name))
  {
    if StringGreater(a.name, b.name) then 1 else -1
  }

  /** `a` may stay in front of `b`: the comparator does not ask to swap them. */
  predicate InOrder(a: UserShortInfo, b: UserShortInfo)
  {
    CompareByName(a, b) == -1
  }

  /** Ascending by name: no pair is the wrong way round. */
  predicate SortedByName(s: seq<UserShortInfo>)
  {
    forall i, j :: 0 <= i < j < |s| ==> InOrder(s[i], s[j])
  }

  /** Equal names compare as -1 both ways: the comparator is inconsistent on ties. */
  lemma ComparatorOnTies(a: UserShortInfo, b: UserShortInfo)
    requires a.name == b.name
    ensures CompareByName(a, b) == -1 && CompareByName(b, a) == -1
  {
    UnitsLessIrreflexive(Utf16(a.name));
  }

  /** Different names compare in opposite directions. */
  lemma ComparatorAntisymmetric(a: UserShortInfo, b: UserShortInfo)
    requires a.name != b.name
    ensures CompareByName(a, b) == -CompareByName(b, a)
  {
    Utf16Injective(a.name, b.name);
    UnitsLessTotal(Utf16(a.name), Utf16(b.name));
    UnitsLessAsymmetric(Utf16(a.name), Utf16(b.name));
  }

  lemma InOrderTransitive(a: UserShortInfo, b: UserShortInfo, c: UserShortInfo)
    requires InOrder(a, b) && InOrder(b, c)
    ensures InOrder(a, c)
  {
    var x, y, z := Utf16(a.name), Utf16(b.name), Utf16(c.name);
    UnitsLessTotal(x, y);
    UnitsLessTransitive(z, x, y);
  }

  /** A pair the comparator swaps is in order the other way round. */
  lemma SwappedIsInOrder(a: UserShortInfo, b: UserShortInfo)
    requires !InOrder(a, b)
    ensures InOrder(b, a)
  {
    UnitsLessAsymmetric(Utf16(b.name), Utf16(a.name));
  }

  /** Upper case sorts first: "Bob" comes before "alice". */
  lemma UpperCaseFirst(bob: UserShortInfo, alice: UserShortInfo)
    requires bob.name == "Bob" && alice.name == "alice"
    ensures SortedByName([bob, alice]) && !SortedByName([alice, bob])
  {
    var b, a := Utf16(bob.name), Utf16(alice.name);
    assert b[0] == 'B' as int && a[0] == 'a' as int;
    assert UnitsLess(b, a);
    assert !UnitsLess(a, b);
    var wrong := [alice, bob];
    assert !InOrder(wrong[0], wrong[1]);
  }

  /** Exchanges two elements of `a`. */
  method Swap(a: array<UserShortInfo>, i: nat, j: nat)
    requires i < a.Length && j < a.Length
    modifies a
    ensures a[i] == old(a[j]) && a[j] == old(a[i])
    ensures forall k :: 0 <= k < a.Length && k != i && k != j ==> a[k] == old(a[k])
    ensures multiset(a[..]) == multiset(old(a[..]))
  {
    a[i], a[j] := a[j], a[i];
  }

  /** Moves `a[i]` left past every element of the sorted prefix `a[..i]`
      that the comparator puts after it. */
  method InsertLast(a: array<UserShortInfo>, i: nat)
    requires i < a.Length
    requires forall k, l :: 0 <= k < l < i ==> InOrder(a[k], a[l])
    modifies a
    ensures forall k, l :: 0 <= k < l <= i ==> InOrder(a[k], a[l])
    ensures forall k :: i < k < a.Length ==> a[k] == old(a[k])
    ensures multiset(a[..]) == multiset(old(a[..]))
  {
    var j := i;
    while j > 0 && CompareByName(a[j - 1], a[j]) > 0
      invariant 0 <= j <= i
      invariant forall k, l :: 0 <= k < l <= i && k != j && l != j ==> InOrder(a[k], a[l])
      invariant forall l :: j < l <= i ==> InOrder(a[j], a[l])
      invariant forall k :: i < k < a.Length ==> a[k] == old(a[k])
      invariant multiset(a[..]) == multiset(old(a[..]))
    {
      SwappedIsInOrder(a[j - 1], a[j]);
      Swap(a, j - 1, j);
      j := j - 1;
    }
    if j > 0 {
      forall k | 0 <= k < j - 1 ensures InOrder(a[k], a[j]) {
        InOrderTransitive(a[k], a[j - 1], a[j]);
      }
    }
  }

  /** Sorts `a` in place by the comparator, one insertion at a time. */
  method SortByName(a: array<UserShortInfo>)
    modifies a
    ensures SortedByName(a[..])
    ensures multiset(a[..]) == multiset(old(a[..]))
  {
    var i := 0;
    while i < a.Length
      invariant 0 <= i <= a.Length
      invariant forall k, l :: 0 <= k < l < i ==> InOrder(a[k], a[l])
      invariant multiset(a[..]) == multiset(old(a[..]))
    {
      InsertLast(a, i);
      i := i + 1;
    }
  }
}
