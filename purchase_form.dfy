/** The `PurchaseForm` component (PurchaseForm.tsx:15-105) without its
    rendering: the state it keeps between events (`ageAlert`, `inviteActive`
    and the `friends` array), the handlers that overwrite that state or emit
    a new draft, and which invite controls it offers. */
module PurchaseForm {
  import opened PurchaseTypes
  import opened Recipients
  import FriendOrder

  /** Line 94: the invitation acknowledgement box sets its own flag and nothing else. */
  function SetAcknowledgeInvite(value: Purchase, checked: bool): (r: Purchase)
    ensures r.acknowledgeInvite == checked
    ensures r.game == value.game && r.userIds == value.userIds && r.emails == value.emails
    ensures r.acknowledgeInviteAge == value.acknowledgeInviteAge
  {
    value.(acknowledgeInvite := checked)
  }

  /** Line 99: the age acknowledgement box sets its own flag and nothing else. */
  function SetAcknowledgeInviteAge(value: Purchase, checked: bool): (r: Purchase)
    ensures r.acknowledgeInviteAge == checked
    ensures r.game == value.game && r.userIds == value.userIds && r.emails == value.emails
    ensures r.acknowledgeInvite == value.acknowledgeInvite
  {
    value.(acknowledgeInviteAge := checked)
  }

  /** The last click on either box decides its flag, and the two boxes do not interfere. */
  lemma AcknowledgementsIndependent(value: Purchase, a: bool, b: bool)
    ensures SetAcknowledgeInvite(SetAcknowledgeInvite(value, a), b) == SetAcknowledgeInvite(value, b)
    ensures SetAcknowledgeInviteAge(SetAcknowledgeInviteAge(value, a), b) == SetAcknowledgeInviteAge(value, b)
    ensures SetAcknowledgeInvite(SetAcknowledgeInviteAge(value, a), b)
         == SetAcknowledgeInviteAge(SetAcknowledgeInvite(value, b), a)
  {
  }

  /** The controls of the invite section (lines 74-100). */
  datatype InviteControl = EmailInput | InviteAcknowledgement | AgeAcknowledgement

  /** What the invite section offers: nothing while inactive; the email
      field and the invitation box while active; the age box only when
      `restrictions?.minAge` is truthy (line 96). */
  function InviteControls(inviteActive: bool, value: Purchase): (r: seq<InviteControl>)
    ensures EmailInput in r <==> inviteActive
    ensures InviteAcknowledgement in r <==> inviteActive
    ensures AgeAcknowledgement in r <==> inviteActive && HasMinAge(value.game)
  {
    if !inviteActive then []
    else [EmailInput, InviteAcknowledgement] + (if HasMinAge(value.game) then [AgeAcknowledgement] else [])
  }

  /** The age box is offered exactly for the games on which ticking a
      recipient of unknown age is refused: both read `minAge` the same way. */
  lemma AgeBoxMatchesRestriction(value: Purchase, user: UserShortInfo)
    requires !HasAge(user)
    ensures AgeAcknowledgement in InviteControls(true, value) <==> Toggle(value, true, user).Alert?
  {
  }

  /** The component's own state, kept apart from the draft it emits. */
  class FormSession {
    /** `ageAlert`: the text of the last refusal, '' at first. */
    var ageAlert: string
    /** `inviteActive`: whether the invite section is open. */
    var inviteActive: bool
    /** `friends`: null until the fetch resolves, then the array that `sort` reorders. */
    var friends: array?<UserShortInfo>

    /** Lines 17-19: the initial state. */
    constructor ()
      ensures ageAlert == "" && !inviteActive && friends == null
    {
      ageAlert := "";
      inviteActive := false;
      friends := null;
    }

    /** `setFriends` with the list the fetch resolved with. */
    method ReceiveFriends(fetched: seq<UserShortInfo>)
      modifies this`friends
      ensures friends != null && fresh(friends) && friends[..] == fetched
    {
      friends := new UserShortInfo[|fetched|](i requires 0 <= i < |fetched| => fetched[i]);
    }

    /** Lines 34-46: `toggleUser`. It returns the draft passed to `onChange`,
        or None when it only sets the alert. An accepted tick and any untick
        leave the alert as it was; a refusal overwrites it. */
    method ToggleUser(value: Purchase, checked: bool, user: UserShortInfo) returns (emitted: Option<Purchase>)
      modifies this`ageAlert
      ensures Toggle(value, checked, user).Emit? ==>
        emitted == Some(Toggle(value, checked, user).draft) && ageAlert == old(ageAlert)
      ensures Toggle(value, checked, user).Alert? ==>
        emitted == None && ageAlert == Toggle(value, checked, user).message
    {
      var restrictions := value.game.restrictions;
      if checked {
        var minAge := if restrictions.Some? && restrictions.value.minAge.Some? then restrictions.value.minAge.value else 0;
        var age := if user.age.Some? then user.age.value else 0;
        if minAge == 0 || (age != 0 && age >= minAge) {
          emitted := Some(value.(userIds := Some(CurrentIds(value) + [user.id])));
        } else if age == 0 {
          ageAlert := AgeRequiredAlert;
          emitted := None;
        } else {
          ageAlert := UnderageAlert;
          emitted := None;
        }
      } else {
        emitted := Some(value.(userIds := if value.userIds.Some? then Some(Without(value.userIds.value, user.id)) else None));
      }
    }

    /** Line 72: the invite box sets `inviteActive` and touches no draft, so
        closing the section keeps the emails and acknowledgements entered. */
    method SetInviteActive(checked: bool)
      modifies this`inviteActive
      ensures inviteActive == checked
    {
      inviteActive := checked;
    }

    /** Line 59: `friends.sort(...)` reorders the loaded array in place. */
    method SortFriends()
      requires friends != null
      modifies friends
      ensures FriendOrder.SortedByName(friends[..])
      ensures multiset(friends[..]) == multiset(old(friends[..]))
    {
      FriendOrder.SortByName(friends);
    }
  }
}
