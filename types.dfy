/** The records the purchase form works on (`Purchase`, `UserShortInfo` from
    `src/data/types`), with JavaScript's optional fields as `Option` and the
    truthiness tests the form applies to its numeric fields. */
module PurchaseTypes {

  datatype Option<+T> = None | Some(value: T)

  /** A user identifier; the form only compares identifiers for equality. */
  type UserId = string

  /** `game.restrictions`: `minAge` may be absent. */
  datatype Restrictions = Restrictions(minAge: Option<int>)

  /** The purchased game; the form reads only its optional restrictions. */
  datatype Game = Game(restrictions: Option<Restrictions>)

  /** A candidate recipient: the current user or a friend. */
  datatype UserShortInfo = UserShortInfo(id: UserId, name: string, age: Option<int>)

  /** The purchase draft the form receives as `value` and emits through `onChange`. */
  datatype Purchase = Purchase(
    game: Game,
    userIds: Option<seq<UserId>>,
    emails: seq<string>,
    acknowledgeInvite: bool,
    acknowledgeInviteAge: bool)

  /** `restrictions?.minAge` taken as a boolean: present and not 0. */
  predicate HasMinAge(g: Game)
  {
    g.restrictions.Some? && g.restrictions.value.minAge.Some? && g.restrictions.value.minAge.value != 0
  }

  /** The minimum age when `HasMinAge` holds. */
  function MinAge(g: Game): int
    requires HasMinAge(g)
  {
    g.restrictions.value.minAge.value
  }

  /** `user.age` taken as a boolean: present and not 0. */
  predicate HasAge(u: UserShortInfo)
  {
    u.age.Some? && u.age.value != 0
  }
}
