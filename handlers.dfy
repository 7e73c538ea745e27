/** The two event handlers of the page as functions of the store: the signup
    form (`handleSignup`: validation, then the server's reply) and the remove
    button (`handleParticipantRemove`). */
module Handlers {
  import opened Wrappers
  import opened Email
  import opened Roster
  import opened Availability

  /** The style of the message element. */
  datatype Kind = Info | Success | Error

  /** The text and kind `showMessage` was last called with. */
  datatype Notice = Notice(text: string, kind: Kind)

  /** The five local checks of a signup, in the order they run. */
  datatype Check = InvalidEmail | NoActivity | NotFound | IsFull | Duplicate

  function Rank(c: Check): nat {
    match c
    case InvalidEmail => 0
    case NoActivity => 1
    case NotFound => 2
    case IsFull => 3
    case Duplicate => 4
  }

  function CheckText(c: Check): string {
    match c
    case InvalidEmail => "Please enter a valid email."
    case NoActivity => "Please select an activity."
    case NotFound => "Activity not found."
    case IsFull => "Sorry, this activity is full."
    case Duplicate => "Email already signed up for this activity."
  }

  /** Each failing check has its own message. */
  lemma CheckTextDistinct(c: Check, d: Check)
    requires c != d
    ensures CheckText(c) != CheckText(d)
  {
    var i := if Rank(c) <= 1 && Rank(d) <= 1 then 7 else 0;
    assert CheckText(c)[i] != CheckText(d)[i];
  }

  const SignedUpText: string := "Successfully signed up!"
  const ServerFallbackText: string := "Failed to sign up"
  const NetworkErrorText: string := "Network error while signing up"

  /** A signup that passed the local checks: the activity (by position) and
      the normalised email. The request names the activity by its display
      name, not its id. */
  datatype Pending = Pending(index: nat, activityName: string, email: string)

  /** The outcome of the request. `NetworkFailure` is any exception inside
      the `try`: the transport failed, building the URL threw, or reading
      `detail` of a body that is JSON `null` threw. Otherwise a response came
      back with its status and the `detail` and `message` fields of its body,
      each missing when the body had none or was not JSON. */
  datatype Reply = NetworkFailure | Response(ok: bool, detail: Option<string>, message: Option<string>)

  /** The store after a handler ran and the message it showed, if any. */
  datatype Outcome = Outcome(acts: seq<Activity>, notice: Option<Notice>)

  /** Whether one check passes for a normalised email and a selected id. The
      last two are about the first activity with that id and hold vacuously
      when there is none. */
  predicate Passes(c: Check, acts: seq<Activity>, email: string, id: string) {
    match c
    case InvalidEmail => ValidateEmail(email)
    case NoActivity => id != ""
    case NotFound => FindById(acts, id).Some?
    case IsFull =>
      FindById(acts, id).Some? ==>
        |acts[FindById(acts, id).value].participants| < acts[FindById(acts, id).value].capacity
    case Duplicate =>
      FindById(acts, id).Some? ==> email !in acts[FindById(acts, id).value].participants
  }

  /** The validation part of `handleSignup`: normalise the email, then run
      the five checks in order; the first that fails is the answer. */
  function Validate(acts: seq<Activity>, rawEmail: string, id: string): (r: Result<Pending, Check>)
    ensures r.Ok? ==> r.value.index < |acts|
  {
    var email := Normalise(rawEmail);
    if !ValidateEmail(email) then Err(InvalidEmail)
    else if id == "" then Err(NoActivity)
    else match FindById(acts, id)
      case None => Err(NotFound)
      case Some(k) =>
        if acts[k].capacity - |acts[k].participants| <= 0 then Err(IsFull)
        else if email in acts[k].participants then Err(Duplicate)
        else Ok(Pending(k, acts[k].name, email))
  }

  /** Fail-fast: a check is reported exactly when it fails and every check
      before it passed. */
  lemma ValidateFailsFast(acts: seq<Activity>, rawEmail: string, id: string, c: Check)
    ensures Validate(acts, rawEmail, id) == Err(c) <==>
      !Passes(c, acts, Normalise(rawEmail), id)
      && forall d: Check | Rank(d) < Rank(c) :: Passes(d, acts, Normalise(rawEmail), id)
  {
    var email := Normalise(rawEmail);
    assert Rank(InvalidEmail) < Rank(c) ==> Passes(InvalidEmail, acts, email, id) || Validate(acts, rawEmail, id) != Err(c);
    assert Rank(NoActivity) < Rank(c) ==> Passes(NoActivity, acts, email, id) || Validate(acts, rawEmail, id) != Err(c);
    assert Rank(NotFound) < Rank(c) ==> Passes(NotFound, acts, email, id) || Validate(acts, rawEmail, id) != Err(c);
    assert Rank(IsFull) < Rank(c) ==> Passes(IsFull, acts, email, id) || Validate(acts, rawEmail, id) != Err(c);
  }

  /** A signup gets through exactly when every check passes. */
  lemma ValidateAccepts(acts: seq<Activity>, rawEmail: string, id: string)
    ensures Validate(acts, rawEmail, id).Ok? <==>
      forall c: Check :: Passes(c, acts, Normalise(rawEmail), id)
  {
    var r, email := Validate(acts, rawEmail, id), Normalise(rawEmail);
    if r.Ok? {
      forall c: Check ensures Passes(c, acts, email, id) {
        assert FindById(acts, id) == Some(r.value.index);
      }
    } else {
      ValidateFailsFast(acts, rawEmail, id, r.error);
      assert !Passes(r.error, acts, email, id);
    }
  }

  /** What an accepted signup sends: the normalised email, which passes
      validateEmail, and the first activity with the chosen id, which has
      room and does not list the email yet. */
  lemma ValidateSound(acts: seq<Activity>, rawEmail: string, id: string)
    requires Validate(acts, rawEmail, id).Ok?
    ensures var p := Validate(acts, rawEmail, id).value;
      && p.email == Normalise(rawEmail) && ValidateEmail(p.email)
      && p.index < |acts| && acts[p.index].id == id && p.activityName == acts[p.index].name
      && (forall j | 0 <= j < p.index :: acts[j].id != id)
      && |acts[p.index].participants| < acts[p.index].capacity
      && p.email !in acts[p.index].participants
  {
    assert FindById(acts, id) == Some(Validate(acts, rawEmail, id).value.index);
  }

  /** The checks pass for a given activity, so the signup goes through for it. */
  lemma ValidateFor(acts: seq<Activity>, rawEmail: string, id: string, k: nat)
    requires ValidateEmail(Normalise(rawEmail)) && id != ""
    requires FindById(acts, id) == Some(k)
    requires |acts[k].participants| < acts[k].capacity
    requires Normalise(rawEmail) !in acts[k].participants
    ensures Validate(acts, rawEmail, id) == Ok(Pending(k, acts[k].name, Normalise(rawEmail)))
  {
  }

  /** `data.detail || data.message || 'Failed to sign up'`. */
  function ServerErrorText(detail: Option<string>, message: Option<string>): (r: string)
    ensures r != []
    ensures Truthy(detail) ==> r == detail.value
    ensures !Truthy(detail) && Truthy(message) ==> r == message.value
    ensures !Truthy(detail) && !Truthy(message) ==> r == ServerFallbackText
  {
    if detail.Some? && detail.value != [] then detail.value
    else if message.Some? && message.value != [] then message.value
    else ServerFallbackText
  }

  /** The participant list after the success branch: the email is appended
      unless it is already there. */
  function AddParticipant(a: Activity, email: string): (r: Activity)
    ensures r == a.(participants := r.participants)
    ensures email in r.participants
    ensures email !in a.participants ==> r.participants == a.participants + [email]
    ensures email in a.participants ==> r.participants == a.participants
  {
    if email in a.participants then a else a.(participants := a.participants + [email])
  }

  /** What happens once the request has been answered. Capacity is not
      checked again here; membership is. */
  function Settle(acts: seq<Activity>, p: Pending, reply: Reply): (o: Outcome)
    requires p.index < |acts|
    ensures |o.acts| == |acts|
    ensures o.notice.Some?
  {
    match reply
    case NetworkFailure => Outcome(acts, Some(Notice(NetworkErrorText, Error)))
    case Response(ok, detail, message) =>
      if !ok then Outcome(acts, Some(Notice(ServerErrorText(detail, message), Error)))
      else Outcome(acts[p.index := AddParticipant(acts[p.index], p.email)], Some(Notice(SignedUpText, Success)))
  }

  /** A submission of the signup form when nothing else runs while the
      request is in flight. */
  function Signup(acts: seq<Activity>, rawEmail: string, id: string, reply: Reply): (o: Outcome)
    ensures o.notice.Some?
  {
    match Validate(acts, rawEmail, id)
    case Err(c) => Outcome(acts, Some(Notice(CheckText(c), Error)))
    case Ok(p) => Settle(acts, p, reply)
  }

  /** A rejected signup shows the failing check's message and leaves the store alone. */
  lemma SignupRejected(acts: seq<Activity>, rawEmail: string, id: string, reply: Reply)
    requires Validate(acts, rawEmail, id).Err?
    ensures Signup(acts, rawEmail, id, reply)
      == Outcome(acts, Some(Notice(CheckText(Validate(acts, rawEmail, id).error), Error)))
  {
  }

  /** A server refusal or a transport failure leaves the store alone and shows
      an error. */
  lemma SignupNotConfirmed(acts: seq<Activity>, rawEmail: string, id: string, reply: Reply)
    requires !(reply.Response? && reply.ok)
    ensures Signup(acts, rawEmail, id, reply).acts == acts
    ensures Signup(acts, rawEmail, id, reply).notice.value.kind == Error
    ensures Validate(acts, rawEmail, id).Ok? ==>
      Signup(acts, rawEmail, id, reply).notice.value.text
        == if reply.NetworkFailure? then NetworkErrorText
           else ServerErrorText(reply.detail, reply.message)
  {
  }

  /** An accepted and confirmed signup appends the normalised email to the
      chosen activity's participants, and changes nothing else. */
  lemma SignupAppends(acts: seq<Activity>, rawEmail: string, id: string, detail: Option<string>, message: Option<string>)
    requires Validate(acts, rawEmail, id).Ok?
    ensures var k := Validate(acts, rawEmail, id).value.index;
      var o := Signup(acts, rawEmail, id, Response(true, detail, message));
      && |o.acts| == |acts|
      && o.acts[k] == acts[k].(participants := acts[k].participants + [Normalise(rawEmail)])
      && (forall j | 0 <= j < |acts| && j != k :: o.acts[j] == acts[j])
      && o.notice == Some(Notice(SignedUpText, Success))
  {
    ValidateSound(acts, rawEmail, id);
  }

  /** Every email stored by a signup is in normal form and passes validateEmail. */
  lemma SignupStoresNormalised(acts: seq<Activity>, rawEmail: string, id: string, reply: Reply, k: nat, e: string)
    requires k < |acts|
    requires k < |Signup(acts, rawEmail, id, reply).acts|
    requires e in Signup(acts, rawEmail, id, reply).acts[k].participants
    requires e !in acts[k].participants
    ensures e == Normalise(rawEmail) && Normalise(e) == e && ValidateEmail(e)
  {
    var r := Validate(acts, rawEmail, id);
    if r.Ok? && reply.Response? && reply.ok {
      ValidateSound(acts, rawEmail, id);
      var after := Settle(acts, r.value, reply).acts;
      assert after == acts[r.value.index := AddParticipant(acts[r.value.index], r.value.email)];
      assert k == r.value.index;
      assert e == r.value.email;
      NormaliseIdempotent(rawEmail);
    }
  }

  /** A signup keeps every participant list duplicate-free and within its
      capacity. */
  lemma SignupWellFormed(acts: seq<Activity>, rawEmail: string, id: string, reply: Reply)
    requires WellFormed(acts)
    ensures WellFormed(Signup(acts, rawEmail, id, reply).acts)
  {
    if Validate(acts, rawEmail, id).Ok? && reply.Response? && reply.ok {
      ValidateSound(acts, rawEmail, id);
      var p := Validate(acts, rawEmail, id).value;
      AppendNoDuplicates(acts[p.index].participants, p.email);
    }
  }

  /** Whatever the store went through while the request was in flight, the
      membership test on success keeps participant lists duplicate-free. */
  lemma SettleNoDuplicates(acts: seq<Activity>, p: Pending, reply: Reply)
    requires p.index < |acts|
    requires forall j | 0 <= j < |acts| :: NoDuplicates(acts[j].participants)
    ensures var o := Settle(acts, p, reply);
      forall j | 0 <= j < |o.acts| :: NoDuplicates(o.acts[j].participants)
  {
    if p.email !in acts[p.index].participants {
      AppendNoDuplicates(acts[p.index].participants, p.email);
    }
  }

  /** Capacity, by contrast, is checked only before the request: when one
      spot is left, two different valid addresses validated against the same
      store, both confirmed by the server, leave the activity one over
      capacity. */
  lemma InterleavedSignupsOverfill(acts: seq<Activity>, first: string, second: string, id: string, k: nat)
    requires FindById(acts, id) == Some(k) && id != ""
    requires |acts[k].participants| + 1 == acts[k].capacity
    requires ValidateEmail(Normalise(first)) && ValidateEmail(Normalise(second))
    requires Normalise(first) != Normalise(second)
    requires Normalise(first) !in acts[k].participants && Normalise(second) !in acts[k].participants
    ensures var p := Validate(acts, first, id);
      var q := Validate(acts, second, id);
      var ok := Response(true, None, None);
      && p.Ok? && q.Ok?
      && var after := Settle(Settle(acts, p.value, ok).acts, q.value, ok).acts;
         |after[k].participants| == after[k].capacity + 1
  {
    ValidateFor(acts, first, id, k);
    ValidateFor(acts, second, id, k);
    var ok := Response(true, None, None);
    var mid := Settle(acts, Validate(acts, first, id).value, ok).acts;
    assert mid[k].participants == acts[k].participants + [Normalise(first)];
    assert Normalise(second) !in mid[k].participants;
  }

  /** A click in the activity list. A click on a remove button carries its
      `data-email` and `data-activity-id` attributes (each missing or a
      string, already decoded) and the `data-activity-id` of its card. */
  datatype Click =
    | RemoveButton(email: Option<string>, activityAttr: Option<string>, cardActivityId: Option<string>)
    | Elsewhere

  /** A present, non-empty attribute: what JavaScript treats as truthy. */
  predicate Truthy(v: Option<string>) {
    v.Some? && v.value != []
  }

  /** The activity a remove button names: its own `data-activity-id` when
      that is truthy, otherwise its card's. */
  function TargetId(click: Click): Option<string>
    requires click.RemoveButton?
  {
    if Truthy(click.activityAttr) then click.activityAttr else click.cardActivityId
  }

  /** `handleParticipantRemove`: filter the email out of the activity named
      by the button (or, failing that, by its card). */
  function Remove(acts: seq<Activity>, click: Click): (o: Outcome)
    ensures |o.acts| == |acts|
  {
    match click
    case Elsewhere => Outcome(acts, None)
    case RemoveButton(email, _, _) =>
      var id := TargetId(click);
      if !Truthy(id) || !Truthy(email) then Outcome(acts, None)
      else match FindById(acts, id.value)
        case None => Outcome(acts, None)
        case Some(k) =>
          Outcome(acts[k := acts[k].(participants := Without(acts[k].participants, email.value))],
                  Some(Notice("Removed " + email.value + " from " + acts[k].name, Info)))
  }

  /** A click that is not on a remove button, lacks an email or an activity
      id, or names no activity, changes nothing and shows nothing. */
  lemma RemoveIgnored(acts: seq<Activity>, click: Click)
    requires || click.Elsewhere?
             || (click.RemoveButton? && !Truthy(click.email))
             || (click.RemoveButton? && !Truthy(TargetId(click)))
             || (click.RemoveButton? && Truthy(TargetId(click)) && FindById(acts, TargetId(click).value).None?)
    ensures Remove(acts, click) == Outcome(acts, None)
  {
  }

  /** A removal deletes every occurrence of the email from the named activity,
      keeps its other participants with their multiplicities, and touches no
      other activity. */
  lemma RemoveDeletes(acts: seq<Activity>, click: Click)
    requires click.RemoveButton? && Truthy(click.email) && Truthy(TargetId(click))
    requires FindById(acts, TargetId(click).value).Some?
    ensures var k, email := FindById(acts, TargetId(click).value).value, click.email.value;
      var o := Remove(acts, click);
      && o.acts[k].participants == Without(acts[k].participants, email)
      && email !in o.acts[k].participants
      && (forall y | y != email :: multiset(o.acts[k].participants)[y] == multiset(acts[k].participants)[y])
      && o.acts[k] == acts[k].(participants := o.acts[k].participants)
      && (forall j | 0 <= j < |acts| && j != k :: o.acts[j] == acts[j])
      && o.notice == Some(Notice("Removed " + email + " from " + acts[k].name, Info))
  {
  }

  /** A removal keeps every participant list duplicate-free and within
      capacity, and takes exactly one entry out when the email was there. */
  lemma RemoveWellFormed(acts: seq<Activity>, click: Click)
    requires WellFormed(acts)
    ensures WellFormed(Remove(acts, click).acts)
    ensures click.RemoveButton? && Truthy(click.email) && Truthy(TargetId(click)) ==>
      match FindById(acts, TargetId(click).value)
      case None => true
      case Some(k) =>
        click.email.value in acts[k].participants ==>
          |Remove(acts, click).acts[k].participants| == |acts[k].participants| - 1
  {
    var o := Remove(acts, click);
    if o.acts != acts {
      var email, id := click.email, TargetId(click);
      var k := FindById(acts, id.value).value;
      WithoutNoDuplicates(acts[k].participants, email.value);
      WithoutShorter(acts[k].participants, email.value);
      if email.value in acts[k].participants {
        WithoutMember(acts[k].participants, email.value);
      }
    }
  }

  /** The example of the chess club: a confirmed signup of whatever was
      typed for carol adds her address, in normal form, at the end of the
      list, and the badge then reads "5 spots left". */
  lemma ChessSignup(typed: string)
    requires Normalise(typed) == "carol@mergington.edu"
    ensures var o := Signup(Fixture(), typed, "chess", Response(true, None, None));
      && o.acts[0].participants == ["alice@mergington.edu", "ben@mergington.edu", "carol@mergington.edu"]
      && BadgeText(SpotsLeft(o.acts[0].capacity, |o.acts[0].participants|)) == "5 spots left"
  {
    FixtureLookups();
    FixtureAddresses();
    ValidateFor(Fixture(), typed, "chess", 0);
    ChessBadges();
  }

  /** The duplicate check compares normal forms: anything typed that
      normalises to a listed participant of an activity with room is refused
      as a duplicate. */
  lemma ChessDuplicate(typed: string)
    requires Normalise(typed) == "alice@mergington.edu"
    ensures Validate(Fixture(), typed, "chess") == Err(Duplicate)
  {
    FixtureLookups();
    FixtureAddresses();
  }

  lemma FixtureLookups()
    ensures FindById(Fixture(), "chess") == Some(0)
  {
    FixtureWellFormed();
    FindInUnique(Fixture(), 0);
  }

  lemma FixtureAddresses()
    ensures ValidateEmail("carol@mergington.edu") && ValidateEmail("alice@mergington.edu")
    ensures "carol@mergington.edu" !in Fixture()[0].participants
  {
    ValidateEmailExample();
    AliceAddress();
    CarolIsNew();
  }

  lemma AliceAddress() ensures ValidateEmail("alice@mergington.edu") {
    ValidateEmailOfLetters("alice", "mergington", "edu");
    assert "alice@mergington.edu" == "alice" + "@" + "mergington" + "." + "edu";
  }

  lemma CarolIsNew() ensures "carol@mergington.edu" !in Fixture()[0].participants {
    var carol, ps := "carol@mergington.edu", Fixture()[0].participants;
    assert carol != ps[0] by { assert carol[0] != ps[0][0]; }
    assert carol != ps[1] by { assert carol[0] != ps[1][0]; }
  }
}
