/** The page as the script keeps it: the mutable activity store, the cards
    on screen and the message line, with the event handlers that change
    them. */
module Page {
  import opened Wrappers
  import opened Email
  import opened Roster
  import opened Render
  import opened Handlers

  /** `renderActivities`: one card per activity, appended in store order. */
  method RenderActivities(acts: seq<Activity>) returns (cards: seq<CardView>)
    ensures cards == RenderAll(acts)
  {
    cards := [];
    var i := 0;
    while i < |acts|
      invariant 0 <= i <= |acts|
      invariant cards == RenderAll(acts[..i])
    {
      RenderAllSnoc(acts[..i], acts[i]);
      assert acts[..i + 1] == acts[..i] + [acts[i]];
      cards := cards + [Card(acts[i])];
      i := i + 1;
    }
    assert acts[..i] == acts;
  }

  /** `document.querySelector('.activity-card[data-activity-id=…]')`: the
      position of the first card showing the id, if any. */
  method FindCard(cards: seq<CardView>, id: string) returns (k: Option<nat>)
    ensures k == FirstIndex(CardIds(cards), id)
  {
    var i := 0;
    while i < |cards| && cards[i].activityId != id
      invariant 0 <= i <= |cards|
      invariant forall j | 0 <= j < i :: cards[j].activityId != id
    {
      i := i + 1;
    }
    assert forall j | 0 <= j < i :: CardIds(cards)[j] != id;
    if i < |cards| {
      assert CardIds(cards)[i] == id;
      k := Some(i);
    } else {
      k := None;
    }
  }

  class Page {
    var activities: seq<Activity>
    var cards: seq<CardView>
    var notice: Option<Notice>

    /** Activity ids are unique and the cards show exactly the store. */
    ghost predicate Valid()
      reads this
    {
      UniqueIds(activities) && cards == RenderAll(activities)
    }

    /** `init`: the sample data, rendered, with no message shown. */
    constructor ()
      ensures activities == Fixture() && notice == None
      ensures Valid()
    {
      activities := Fixture();
      cards := [];
      notice := None;
      new;
      FixtureWellFormed();
      cards := RenderActivities(activities);
    }

    /** `showMessage`: the message line shows the text with its kind. */
    method ShowMessage(text: string, kind: Kind)
      modifies this`notice
      ensures notice == Some(Notice(text, kind))
    {
      notice := Some(Notice(text, kind));
    }

    /** `updateActivityCard`: refresh the badge, count and participant
        section of the first card with the activity's id. */
    method UpdateActivityCard(a: Activity)
      modifies this`cards
      ensures cards == UpdateCard(old(cards), a)
    {
      var k := FindCard(cards, a.id);
      if k.Some? {
        cards := cards[k.value := Refresh(cards[k.value], a)];
      }
    }

    /** The part of `handleSignup` before the request: a rejected submission
        shows the failing check's message; an accepted one is handed back as
        the request to send. */
    method Submit(rawEmail: string, id: string) returns (p: Option<Pending>)
      modifies this`notice
      ensures Validate(old(activities), rawEmail, id).Err? ==>
        p == None && notice == Some(Notice(CheckText(Validate(activities, rawEmail, id).error), Error))
      ensures Validate(old(activities), rawEmail, id).Ok? ==>
        p == Some(Validate(activities, rawEmail, id).value) && notice == old(notice)
    {
      var email := Normalise(rawEmail);
      if !ValidateEmail(email) {
        ShowMessage(CheckText(InvalidEmail), Error);
        return None;
      }
      if id == "" {
        ShowMessage(CheckText(NoActivity), Error);
        return None;
      }
      var found := FindById(activities, id);
      if found.None? {
        ShowMessage(CheckText(NotFound), Error);
        return None;
      }
      var k := found.value;
      var act := activities[k];
      if act.capacity - |act.participants| <= 0 {
        ShowMessage(CheckText(IsFull), Error);
        return None;
      }
      if email in act.participants {
        ShowMessage(CheckText(Duplicate), Error);
        return None;
      }
      return Some(Pending(k, act.name, email));
    }

    /** The part of `handleSignup` after the request, whatever ran in the
        meantime: on a confirmation, push the email unless it is listed and
        refresh that card; otherwise show the error. */
    method Complete(p: Pending, reply: Reply)
      requires Valid() && p.index < |activities|
      modifies this`activities, this`cards, this`notice
      ensures Valid()
      ensures activities == Settle(old(activities), p, reply).acts
      ensures notice == Settle(old(activities), p, reply).notice
    {
      match reply
      case NetworkFailure =>
        ShowMessage(NetworkErrorText, Error);
      case Response(ok, detail, message) =>
        if !ok {
          ShowMessage(ServerErrorText(detail, message), Error);
          return;
        }
        var act := activities[p.index];
        if p.email !in act.participants {
          act := act.(participants := act.participants + [p.email]);
        }
        assert act == AddParticipant(activities[p.index], p.email);
        UpdateCardInSync(activities, p.index, act.participants);
        SameIds(activities, p.index, act);
        activities := activities[p.index := act];
        UpdateActivityCard(act);
        ShowMessage(SignedUpText, Success);
    }

    /** `handleSignup` when nothing else runs while the request is in flight. */
    method HandleSignup(rawEmail: string, id: string, reply: Reply)
      requires Valid()
      modifies this`activities, this`cards, this`notice
      ensures Valid()
      ensures activities == Signup(old(activities), rawEmail, id, reply).acts
      ensures notice == Signup(old(activities), rawEmail, id, reply).notice
    {
      var p := Submit(rawEmail, id);
      if p.Some? {
        Complete(p.value, reply);
      }
    }

    /** `handleParticipantRemove`: a click that resolves to an email and a
        known activity filters the email out, refreshes the card and shows
        an info message; any other click changes nothing. */
    method HandleParticipantRemove(click: Click)
      requires Valid()
      modifies this`activities, this`cards, this`notice
      ensures Valid()
      ensures activities == Remove(old(activities), click).acts
      ensures notice == if Remove(old(activities), click).notice.Some?
                        then Remove(old(activities), click).notice else old(notice)
    {
      if click.Elsewhere? {
        return;
      }
      var email := click.email;
      var id := TargetId(click);
      if !Truthy(id) || !Truthy(email) {
        return;
      }
      var found := FindById(activities, id.value);
      if found.None? {
        return;
      }
      var k := found.value;
      var act := activities[k].(participants := Without(activities[k].participants, email.value));
      UpdateCardInSync(activities, k, act.participants);
      SameIds(activities, k, act);
      activities := activities[k := act];
      UpdateActivityCard(act);
      ShowMessage("Removed " + email.value + " from " + act.name, Info);
    }
  }
}
