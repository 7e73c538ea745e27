/** What the page shows for each activity: the participant list
    (`renderParticipantsHtml`), the card values computed by `renderActivities`,
    and the targeted refresh of one card (`updateActivityCard`). */
module Render {
  import opened Wrappers
  import opened Escape
  import opened Availability
  import opened Roster

  /** The empty-state message of a participant list. */
  const EmptyState: string :=
    EmptyOpen + "No participants yet \U{2014} be the first to sign up!" + "</div>"

  const EmptyOpen: string := "<div class=\"participants-empty\">"

  const ListOpen: string := "<ul class=\"participants-list\">"
  const ListClose: string := "</ul>"

  /** One participant row: the escaped email that fills the chip, the remove
      button's label and its `data-email`, and the escaped activity id that
      fills its `data-activity-id`. */
  datatype Item = Item(email: string, activityId: string)

  function ItemFor(p: string, activityId: string): Item {
    Item(Esc(p), Esc(activityId))
  }

  /** The markup of one row. */
  function ItemHtml(it: Item): string {
    "\n      <li>\n        <span class=\"participant-chip\">" + it.email
    + "</span>\n        <button class=\"participant-remove\" type=\"button\" aria-label=\"Remove "
    + it.email + "\" data-email=\"" + it.email + "\" data-activity-id=\"" + it.activityId
    + "\">&times;</button>\n      </li>\n    "
  }

  /** `list.map(...)`: one row per participant, in list order. */
  function Items(list: seq<string>, activityId: string): seq<Item> {
    seq(|list|, i requires 0 <= i < |list| => ItemFor(list[i], activityId))
  }

  /** `.join("")` of the rows' markup. */
  function JoinItems(items: seq<Item>): string {
    if items == [] then [] else ItemHtml(items[0]) + JoinItems(items[1..])
  }

  /** What `renderParticipantsHtml` decides: the empty-state message, or a
      list with one row per participant. */
  datatype Section = EmptyMessage | ParticipantList(items: seq<Item>)

  function Participants(list: seq<string>, activityId: string): (s: Section)
    ensures s.EmptyMessage? <==> list == []
    ensures s.ParticipantList? ==> |s.items| == |list|
  {
    if list == [] then EmptyMessage else ParticipantList(Items(list, activityId))
  }

  /** The markup of a participant section. */
  function SectionHtml(s: Section): string {
    match s
    case EmptyMessage => EmptyState
    case ParticipantList(items) => ListOpen + JoinItems(items) + ListClose
  }

  /** `renderParticipantsHtml`: the empty-state message exactly for an empty
      list. */
  function ParticipantsHtml(list: seq<string>, activityId: string): (r: string)
    ensures r == EmptyState <==> list == []
  {
    match Participants(list, activityId)
    case EmptyMessage => EmptyState
    case ParticipantList(items) =>
      ListIsNotEmptyState(JoinItems(items));
      SectionHtml(ParticipantList(items))
  }

  lemma ListIsNotEmptyState(body: string)
    ensures ListOpen + body + ListClose != EmptyState
  {
    assert (ListOpen + body + ListClose)[1] == ListOpen[1] == 'u';
    assert EmptyState[1] == EmptyOpen[1] == 'd';
  }

  /** Every row carries its participant and the owning activity: decoding the
      button's `data-email` and `data-activity-id`, as `getAttribute` does,
      gives back exactly that participant and id. */
  lemma ItemsCarryIdentity(list: seq<string>, activityId: string)
    ensures |Items(list, activityId)| == |list|
    ensures forall i | 0 <= i < |list| ::
      Unescape(Items(list, activityId)[i].email) == list[i]
      && Unescape(Items(list, activityId)[i].activityId) == activityId
  {
    UnescapeEsc(activityId);
    forall i | 0 <= i < |list|
      ensures Unescape(Items(list, activityId)[i].email) == list[i]
    {
      UnescapeEsc(list[i]);
    }
  }

  /** No row holds a raw `<`, `>`, `"` or `'` in the slots filled from data,
      so a participant cannot inject markup or leave an attribute value. */
  lemma ItemsAreInert(list: seq<string>, activityId: string)
    ensures forall i, k | 0 <= i < |list| && 0 <= k < |Items(list, activityId)[i].email| ::
      !IsMarkup(Items(list, activityId)[i].email[k])
    ensures forall i, k | 0 <= i < |list| && 0 <= k < |Items(list, activityId)[i].activityId| ::
      !IsMarkup(Items(list, activityId)[i].activityId[k])
  {
    EscHasNoMarkup(activityId);
    forall i | 0 <= i < |list|
      ensures forall k | 0 <= k < |Esc(list[i])| :: !IsMarkup(Esc(list[i])[k])
    {
      EscHasNoMarkup(list[i]);
    }
  }

  /** A signup appends one row, for the new participant, after the old ones. */
  lemma ItemsAppend(list: seq<string>, p: string, activityId: string)
    ensures Items(list + [p], activityId) == Items(list, activityId) + [ItemFor(p, activityId)]
  {
  }

  /** The values a card shows. `activityId` is the card's `data-activity-id`;
      title, description and schedule are the escaped texts; `participants`
      is what the participant section shows (its markup is `SectionHtml`). */
  datatype CardView = CardView(
    activityId: string,
    title: string,
    description: string,
    schedule: string,
    badgeClass: string,
    badgeText: string,
    count: nat,
    participants: Section)

  /** The card `renderActivities` builds for one activity. */
  function Card(a: Activity): (c: CardView)
    ensures c.activityId == a.id && c.count == |a.participants|
    ensures c.badgeText == "Full" <==> |a.participants| >= a.capacity
    ensures c.badgeClass == "availability-full" <==> |a.participants| >= a.capacity
    ensures c.participants.EmptyMessage? <==> a.participants == []
  {
    var spots := SpotsLeft(a.capacity, |a.participants|);
    CardView(a.id, Esc(a.name), Esc(a.description), Esc(a.schedule),
             BadgeClass(spots), BadgeText(spots), |a.participants|,
             Participants(a.participants, a.id))
  }

  /** The texts of a card contain no raw markup characters. */
  lemma CardIsInert(a: Activity)
    ensures forall k | 0 <= k < |Card(a).title| :: !IsMarkup(Card(a).title[k])
    ensures forall k | 0 <= k < |Card(a).description| :: !IsMarkup(Card(a).description[k])
    ensures forall k | 0 <= k < |Card(a).schedule| :: !IsMarkup(Card(a).schedule[k])
  {
    EscHasNoMarkup(a.name);
    EscHasNoMarkup(a.description);
    EscHasNoMarkup(a.schedule);
  }

  /** All cards, one per activity, in store order. */
  function RenderAll(acts: seq<Activity>): (r: seq<CardView>)
    ensures |r| == |acts|
  {
    seq(|acts|, i requires 0 <= i < |acts| => Card(acts[i]))
  }

  /** Rendering one more activity appends its card. */
  lemma RenderAllSnoc(acts: seq<Activity>, a: Activity)
    ensures RenderAll(acts + [a]) == RenderAll(acts) + [Card(a)]
  {
  }

  function CardIds(cards: seq<CardView>): seq<string> {
    seq(|cards|, i requires 0 <= i < |cards| => cards[i].activityId)
  }

  /** The cards carry the store's ids, in store order. */
  lemma CardIdsAreIds(acts: seq<Activity>)
    ensures CardIds(RenderAll(acts)) == Ids(acts)
  {
  }

  /** What `updateActivityCard` rewrites in a card: the badge, the count and
      the participant section. */
  function Refresh(c: CardView, a: Activity): CardView {
    var spots := SpotsLeft(a.capacity, |a.participants|);
    c.(badgeClass := BadgeClass(spots), badgeText := BadgeText(spots),
       count := |a.participants|, participants := Participants(a.participants, a.id))
  }

  /** The fields `updateActivityCard` rewrites are all a participant change
      can affect: refreshing a card after one gives the card rendered anew. */
  lemma RefreshIsCard(before: Activity, a: Activity)
    requires a == before.(participants := a.participants)
    ensures Refresh(Card(before), a) == Card(a)
  {
  }

  /** `updateActivityCard`: the first card whose id is the activity's is
      refreshed; without such a card nothing changes. */
  function UpdateCard(cards: seq<CardView>, a: Activity): (r: seq<CardView>)
    ensures |r| == |cards|
  {
    match FirstIndex(CardIds(cards), a.id)
    case None => cards
    case Some(k) => cards[k := Refresh(cards[k], a)]
  }

  /** Refreshing the card of an activity whose participants changed leaves
      the page showing exactly the new store, when ids are unique. */
  lemma UpdateCardInSync(acts: seq<Activity>, k: nat, ps: seq<string>)
    requires UniqueIds(acts) && k < |acts|
    ensures UpdateCard(RenderAll(acts), acts[k].(participants := ps))
            == RenderAll(acts[k := acts[k].(participants := ps)])
  {
    var cards := RenderAll(acts);
    CardIdsAreIds(acts);
    FindInUnique(acts, k);
    var after := acts[k := acts[k].(participants := ps)];
    RefreshIsCard(acts[k], after[k]);
  }

  /** Removing the last participant brings back the empty-state message. */
  lemma LastRemovalShowsEmptyState(p: string, activityId: string)
    ensures ParticipantsHtml(Without([p], p), activityId) == EmptyState
  {
    assert Without([p], p) == [];
  }

  /** The chess card of the fixture. */
  lemma ChessCard()
    ensures Card(Fixture()[0]).badgeText == "6 spots left"
    ensures Card(Fixture()[0]).count == 2
  {
    ChessBadges();
  }
}
