/** `toggleUser` (PurchaseForm.tsx:34-46) and the "checked" test of each
    recipient checkbox (lines 54 and 63). Ticking a candidate who passes the
    game's age restriction emits the draft with the id appended; ticking one
    who fails it emits nothing and raises one of two alerts; unticking always
    emits the draft with every copy of the id filtered out. The numeric tests
    keep JavaScript truthiness: a `minAge` of 0 is no restriction and an
    `age` of 0 is an unknown age. */
module Recipients {
  import opened PurchaseTypes
  import opened Sequences

  const AgeRequiredAlert: string :=
    "Cannot be selected unless users age is specified, because the game has age restriction"
  const UnderageAlert: string :=
    "The person is not allowed to get the game due to age restriction"

  /** What ticking a candidate leads to. */
  datatype Verdict = Eligible | AgeRequired | Underage

  /** The condition at line 36 and the fallback test at line 38. */
  function Evaluate(g: Game, u: UserShortInfo): (v: Verdict)
    ensures !HasMinAge(g) ==> v == Eligible
    ensures HasMinAge(g) && !HasAge(u) ==> v == AgeRequired
    ensures HasMinAge(g) && HasAge(u) ==> (v == Eligible <==> u.age.value >= MinAge(g))
  {
    if !HasMinAge(g) || (HasAge(u) && u.age.value >= MinAge(g)) then Eligible
    else if !HasAge(u) then AgeRequired
    else Underage
  }

  /** `value.userIds ?? []` */
  function CurrentIds(p: Purchase): seq<UserId>
  {
    if p.userIds.Some? then p.userIds.value else []
  }

  /** The test `userId => userId !== id`. */
  function IsNot(id: UserId): UserId -> bool
  {
    x => x != id
  }

  /** `ids.filter(userId => userId !== id)` */
  function Without(ids: seq<UserId>, id: UserId): (r: seq<UserId>)
    ensures id !in r
  {
    Filter(IsNot(id), ids)
  }

  /** Line 37: `{...value, userIds: [...(value.userIds ?? []), user.id]}`. */
  function AddRecipient(p: Purchase, id: UserId): (r: Purchase)
    ensures r.userIds.Some?
    ensures |r.userIds.value| == |CurrentIds(p)| + 1
    ensures r.userIds.value[..|CurrentIds(p)|] == CurrentIds(p)
    ensures r.userIds.value[|CurrentIds(p)|] == id
    ensures r.game == p.game && r.emails == p.emails
    ensures r.acknowledgeInvite == p.acknowledgeInvite && r.acknowledgeInviteAge == p.acknowledgeInviteAge
  {
    p.(userIds := Some(CurrentIds(p) + [id]))
  }

  /** Line 44: `{...value, userIds: value.userIds?.filter(userId => userId !== user.id)}`. */
  function RemoveRecipient(p: Purchase, id: UserId): (r: Purchase)
    ensures r.userIds.None? <==> p.userIds.None?
    ensures r.userIds.Some? ==> id !in r.userIds.value
    ensures r.game == p.game && r.emails == p.emails
    ensures r.acknowledgeInvite == p.acknowledgeInvite && r.acknowledgeInviteAge == p.acknowledgeInviteAge
  {
    match p.userIds
    case None => p
    case Some(ids) => p.(userIds := Some(Without(ids, id)))
  }

  /** What `toggleUser` does with the draft: emit a new one, or raise an alert. */
  datatype ToggleOutcome = Emit(draft: Purchase) | Alert(message: string)

  /** `toggleUser(checked, user)` against the draft `value`. */
  function Toggle(value: Purchase, checked: bool, user: UserShortInfo): (r: ToggleOutcome)
    ensures !checked ==> r.Emit?
    ensures checked ==> (r.Emit? <==> Evaluate(value.game, user) == Eligible)
    ensures r.Alert? ==> r.message == AgeRequiredAlert || r.message == UnderageAlert
  {
    if checked then
      match Evaluate(value.game, user)
      case Eligible => Emit(AddRecipient(value, user.id))
      case AgeRequired => Alert(AgeRequiredAlert)
      case Underage => Alert(UnderageAlert)
    else
      Emit(RemoveRecipient(value, user.id))
  }

  /** `!!value.userIds?.length && value.userIds.includes(id)` */
  predicate IsChecked(p: Purchase, id: UserId)
  {
    p.userIds.Some? && |p.userIds.value| > 0 && id in p.userIds.value
  }

  /** The length test adds nothing: a box is checked exactly when its id is listed. */
  lemma IsCheckedIffListed(p: Purchase, id: UserId)
    ensures IsChecked(p, id) <==> id in CurrentIds(p)
  {
  }

  /** Ticking succeeds exactly when `minAge` is absent or 0, or the age is
      present, not 0 and at least `minAge`. */
  lemma TickAcceptedIff(value: Purchase, user: UserShortInfo)
    ensures Toggle(value, true, user).Emit? <==>
      (|| value.game.restrictions.None?
       || value.game.restrictions.value.minAge.None?
       || value.game.restrictions.value.minAge.value == 0
       || (user.age.Some? && user.age.value != 0
           && user.age.value >= value.game.restrictions.value.minAge.value))
  {
  }

  /** An accepted tick appends the id once more, keeps the earlier ids in
      order, even an earlier copy of the same id, and checks the box. */
  lemma AcceptedTickAppends(value: Purchase, user: UserShortInfo)
    requires Toggle(value, true, user).Emit?
    ensures var d := Toggle(value, true, user).draft;
      && d.userIds == Some(CurrentIds(value) + [user.id])
      && multiset(d.userIds.value)[user.id] == multiset(CurrentIds(value))[user.id] + 1
      && IsChecked(d, user.id)
  {
    var ids := CurrentIds(value);
    assert (ids + [user.id])[|ids|] == user.id;
  }

  /** Ticking an eligible candidate twice lists the id twice: adding is not a set union. */
  lemma TickTwiceListsTwice(value: Purchase, user: UserShortInfo)
    requires Evaluate(value.game, user) == Eligible
    ensures var d := Toggle(Toggle(value, true, user).draft, true, user).draft;
      multiset(CurrentIds(d))[user.id] == multiset(CurrentIds(value))[user.id] + 2
  {
    var once := AddRecipient(value, user.id);
    AcceptedTickAppends(value, user);
    AcceptedTickAppends(once, user);
  }

  /** A refused tick emits nothing; the alert says the age is missing when it
      is absent or 0, and that the person is too young otherwise. */
  lemma RefusedTickAlert(value: Purchase, user: UserShortInfo)
    requires !Toggle(value, true, user).Emit?
    ensures Toggle(value, true, user).message ==
      if user.age.None? || user.age.value == 0 then AgeRequiredAlert else UnderageAlert
  {
  }

  /** Unticking, eligible or not, removes every copy of the id, keeps the
      other ids in order and with their counts, leaves absent ids absent,
      and unchecks the box. */
  lemma UntickRemovesEveryCopy(value: Purchase, user: UserShortInfo, other: UserId)
    ensures var d := Toggle(value, false, user).draft;
      && (value.userIds.None? ==> d.userIds.None?)
      && (value.userIds.Some? ==>
            && d.userIds.Some?
            && IsSubsequence(d.userIds.value, value.userIds.value)
            && (other != user.id ==>
                  multiset(d.userIds.value)[other] == multiset(value.userIds.value)[other]))
      && !IsChecked(d, user.id)
  {
    if value.userIds.Some? {
      FilterIsSubsequence(IsNot(user.id), value.userIds.value);
      FilterCount(IsNot(user.id), value.userIds.value, other);
    }
  }

  /** Unticking twice is the same as unticking once. */
  lemma UntickIdempotent(value: Purchase, id: UserId)
    ensures RemoveRecipient(RemoveRecipient(value, id), id) == RemoveRecipient(value, id)
  {
    if value.userIds.Some? {
      FilterIdempotent(IsNot(id), value.userIds.value);
    }
  }

  /** Ticking then unticking an accepted candidate whose id was not listed
      gives back the ids as they were. */
  lemma TickThenUntick(value: Purchase, user: UserShortInfo)
    requires Evaluate(value.game, user) == Eligible
    requires user.id !in CurrentIds(value)
    ensures CurrentIds(Toggle(Toggle(value, true, user).draft, false, user).draft) == CurrentIds(value)
  {
    var ids := CurrentIds(value);
    FilterConcat(IsNot(user.id), ids, [user.id]);
    FilterAllPass(IsNot(user.id), ids);
  }
}
