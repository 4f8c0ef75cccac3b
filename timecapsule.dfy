/**
 * The time capsule panel: sealing a message until a date, the key shown
 * after sealing, and opening a capsule by its key. Each handler is split at
 * its request into a Begin method (the guards and what is sent) and a Finish
 * method (the effect of the outcome, passed in). "Now" and the user's zone
 * offset are parameters.
 */
module TimeCapsule {
  import opened Wrappers
  import opened Calendar
  import opened IsoDate
  import opened Strings

  /** The three views of the panel. */
  datatype View = Seal | Success | Open

  /** A capsule as the server returns it. */
  datatype Capsule = Capsule(status: string, message: string, daysRemaining: int,
                             unlockDate: string, createdAt: string)

  /** The body of POST /capsule. */
  datatype SealRequest = SealRequest(message: string, unlockDate: string, isPublic: bool)

  /** The instant DateTime.fromISO gives a calendar date: its local midnight. */
  function LocalMidnight(d: Date, offsetMinutes: int): int
    requires 1 <= d.month <= 12
  {
    FromLocal(DateTime(d, 0, 0, 0, 0), offsetMinutes)
  }

  /**
   * handleSeal's date guard: a readable date is accepted only when its local
   * midnight is strictly after now. An unreadable date is an invalid
   * DateTime, which compares false with everything, so it is not rejected.
   */
  predicate DateAccepted(targetDate: string, now: int, offsetMinutes: int) {
    match ParseIsoDate(targetDate)
    case None => true
    case Some(d) => LocalMidnight(d, offsetMinutes) > now
  }

  /**
   * The guard accepts a readable date exactly when it is after today's local
   * date, which is the earliest date the date picker offers (tomorrow):
   * today itself is refused even before its midnight has passed.
   */
  lemma DateAcceptedMeaning(targetDate: string, now: int, offsetMinutes: int)
    requires ParseIsoDate(targetDate).Some?
    ensures DateAccepted(targetDate, now, offsetMinutes)
        <==> DaysFromCivil(ParseIsoDate(targetDate).value) > DaysFromCivil(ToLocal(now, offsetMinutes).date)
  {
    var d := ParseIsoDate(targetDate).value;
    var local := now + offsetMinutes * 60_000;
    var today := DaysFromCivil(ToLocal(now, offsetMinutes).date);
    assert today == local / 86_400_000;
    assert LocalMidnight(d, offsetMinutes) == DaysFromCivil(d) * 86_400_000 - offsetMinutes * 60_000;
    assert local == today * 86_400_000 + local % 86_400_000;
    if DaysFromCivil(d) > today {
      assert DaysFromCivil(d) * 86_400_000 >= (today + 1) * 86_400_000;
    } else {
      assert DaysFromCivil(d) * 86_400_000 <= today * 86_400_000;
    }
  }

  /** The unlock date sent: the chosen date at 00:00 UTC. */
  function UnlockDate(targetDate: string): (s: string)
    ensures |s| == |targetDate| + 10 && s[..|targetDate|] == targetDate
    ensures s[|targetDate|..] == "T00:00:00Z"
  {
    targetDate + "T00:00:00Z"
  }

  /** What handleSeal did before any request. */
  datatype SealStep = Ignored | DateRejected | Sent(request: SealRequest)

  /** How a retrieved capsule is presented. */
  datatype Presentation =
    | StillLocked(daysRemaining: int, unlockDate: string)
    | Unlocked(message: string, createdAt: string)

  /** A capsule shows as still locked exactly when its status is 'locked'; otherwise its message is shown. */
  function Present(c: Capsule): (p: Presentation)
    ensures p.StillLocked? <==> c.status == "locked"
    ensures p.StillLocked? ==> p.daysRemaining == c.daysRemaining && p.unlockDate == c.unlockDate
    ensures p.Unlocked? ==> p.message == c.message && p.createdAt == c.createdAt
  {
    if c.status == "locked" then StillLocked(c.daysRemaining, c.unlockDate)
    else Unlocked(c.message, c.createdAt)
  }

  /** The notice shown when a capsule is found: it agrees with how the capsule is presented. */
  function FoundNotice(c: Capsule): (n: string)
    ensures Present(c).StillLocked? ==> n == "Capsule found, but it's still locked! 🔒"
    ensures Present(c).Unlocked? ==> n == "Capsule Unlocked! 🎉"
  {
    if c.status == "locked" then "Capsule found, but it's still locked! 🔒" else "Capsule Unlocked! 🎉"
  }

  /** The "Create Capsule" tab is highlighted while sealing and while showing the key. */
  predicate CreateTabActive(view: View) {
    view == Seal || view == Success
  }

  /** The "Open Capsule" tab is highlighted while opening. */
  predicate OpenTabActive(view: View) {
    view == Open
  }

  /** In every view exactly one tab is highlighted, and it is the tab that leads to that view's form. */
  lemma ExactlyOneTabActive(view: View)
    ensures CreateTabActive(view) != OpenTabActive(view)
    ensures OpenTabActive(view) <==> view == Open
  {
  }

  /** What the right-hand side of the panel shows. */
  datatype Panel = SealForm | KeyDisplay(key: string) | LookupForm | CapsuleCard(shown: Presentation)

  /** The panel for a view: the lookup form in 'open' until a capsule is retrieved, then that capsule. */
  function PanelFor(view: View, capsuleId: string, retrieved: Option<Capsule>): (p: Panel)
    ensures view == Seal <==> p == SealForm
    ensures view == Success <==> p.KeyDisplay?
    ensures p.KeyDisplay? ==> p.key == capsuleId
    ensures p == LookupForm <==> view == Open && retrieved.None?
    ensures p.CapsuleCard? <==> view == Open && retrieved.Some?
    ensures p.CapsuleCard? ==> p.shown == Present(retrieved.value)
  {
    match view
    case Seal => SealForm
    case Success => KeyDisplay(capsuleId)
    case Open => if retrieved.None? then LookupForm else CapsuleCard(Present(retrieved.value))
  }

  /** The inputs of the panel's forms. */
  datatype Field = MessageField | TargetDateField | KeyField

  /** The panel's state. */
  class CapsulePanel {
    var view: View
    var message: string
    var targetDate: string
    var capsuleId: string
    var inputKey: string
    var retrieved: Option<Capsule>
    var loading: bool

    constructor ()
      ensures view == Seal && message == "" && targetDate == "2026-01-01" && capsuleId == ""
      ensures inputKey == "" && retrieved.None? && !loading
    {
      view := Seal;
      message, targetDate, capsuleId := "", "2026-01-01", "";
      inputKey := "";
      retrieved := None;
      loading := false;
    }

    /** A tab, "Create Another" or the key display's way back: the view changes and nothing else. */
    method ShowView(v: View)
      modifies this
      ensures view == v
      ensures message == old(message) && targetDate == old(targetDate) && capsuleId == old(capsuleId)
      ensures inputKey == old(inputKey) && retrieved == old(retrieved) && loading == old(loading)
    {
      view := v;
    }

    /** Typing into one input: that input takes the value, the rest is kept. */
    method Edit(field: Field, value: string)
      modifies this
      ensures message == (if field == MessageField then value else old(message))
      ensures targetDate == (if field == TargetDateField then value else old(targetDate))
      ensures inputKey == (if field == KeyField then value else old(inputKey))
      ensures view == old(view) && capsuleId == old(capsuleId) && retrieved == old(retrieved)
      ensures loading == old(loading)
    {
      match field
      case MessageField => message := value;
      case TargetDateField => targetDate := value;
      case KeyField => inputKey := value;
    }

    /**
     * handleSeal up to the request: a blank message is ignored, a date not
     * after now is refused; in both cases nothing changes. Otherwise loading
     * starts and the message is sent as typed, to unlock at 00:00 UTC on the
     * chosen date, as a public capsule.
     */
    method BeginSeal(now: int, offsetMinutes: int) returns (step: SealStep)
      modifies this
      ensures step == Ignored <==> AllWhitespace(message)
      ensures step == DateRejected <==> !AllWhitespace(message) && !DateAccepted(targetDate, now, offsetMinutes)
      ensures step.Sent? ==> step.request == SealRequest(message, UnlockDate(targetDate), true)
      ensures loading == (step.Sent? || old(loading))
      ensures view == old(view) && message == old(message) && targetDate == old(targetDate)
      ensures capsuleId == old(capsuleId) && inputKey == old(inputKey) && retrieved == old(retrieved)
    {
      TrimEmptyIffBlank(message);
      if Trim(message) == "" {
        return Ignored;
      }
      if !DateAccepted(targetDate, now, offsetMinutes) {
        return DateRejected;
      }
      loading := true;
      step := Sent(SealRequest(message, UnlockDate(targetDate), true));
    }

    /**
     * handleSeal after the request: on success the returned id becomes the
     * key, the key is shown and the message is cleared; on failure nothing
     * but loading changes. Loading ends either way.
     */
    method FinishSeal(outcome: Option<string>)
      modifies this
      ensures !loading
      ensures outcome.Some? ==> capsuleId == outcome.value && view == Success && message == ""
      ensures outcome.None? ==> capsuleId == old(capsuleId) && view == old(view) && message == old(message)
      ensures targetDate == old(targetDate) && inputKey == old(inputKey) && retrieved == old(retrieved)
    {
      if outcome.Some? {
        capsuleId := outcome.value;
        view := Success;
        message := "";
      }
      loading := false;
    }

    /**
     * handleOpen up to the request: a blank key is ignored and nothing
     * changes. Otherwise loading starts, any shown capsule is dropped and the
     * trimmed key is looked up.
     */
    method BeginOpen() returns (lookup: Option<string>)
      modifies this
      ensures lookup.None? <==> AllWhitespace(inputKey)
      ensures lookup.Some? ==> lookup.value == Trim(inputKey) && retrieved.None? && loading
      ensures lookup.None? ==> retrieved == old(retrieved) && loading == old(loading)
      ensures view == old(view) && message == old(message) && targetDate == old(targetDate)
      ensures capsuleId == old(capsuleId) && inputKey == old(inputKey)
    {
      TrimEmptyIffBlank(inputKey);
      if Trim(inputKey) == "" {
        return None;
      }
      loading := true;
      retrieved := None;
      lookup := Some(Trim(inputKey));
    }

    /** handleOpen after the request: the capsule found, or none when the lookup failed; loading ends. */
    method FinishOpen(outcome: Option<Capsule>)
      modifies this
      ensures !loading && retrieved == (if outcome.Some? then outcome else old(retrieved))
      ensures view == old(view) && message == old(message) && targetDate == old(targetDate)
      ensures capsuleId == old(capsuleId) && inputKey == old(inputKey)
    {
      if outcome.Some? {
        retrieved := outcome;
      }
      loading := false;
    }

    /** "Check Another": the shown capsule is dropped, bringing back the lookup form. */
    method CheckAnother()
      modifies this
      ensures retrieved.None?
      ensures view == old(view) && message == old(message) && targetDate == old(targetDate)
      ensures capsuleId == old(capsuleId) && inputKey == old(inputKey) && loading == old(loading)
    {
      retrieved := None;
    }
  }

  /**
   * A seal that is sent and accepted leaves the panel showing the new key,
   * with the Create tab still highlighted and the message cleared.
   */
  method SealShowsKey(panel: CapsulePanel, now: int, offsetMinutes: int, id: string) returns (step: SealStep)
    requires !AllWhitespace(panel.message) && DateAccepted(panel.targetDate, now, offsetMinutes)
    modifies panel
    ensures step.Sent? && step.request.isPublic
    ensures PanelFor(panel.view, panel.capsuleId, panel.retrieved) == KeyDisplay(id)
    ensures CreateTabActive(panel.view) && panel.message == "" && !panel.loading
  {
    step := panel.BeginSeal(now, offsetMinutes);
    panel.FinishSeal(Some(id));
  }

  /** A failed lookup after a shown capsule leaves the lookup form, not the old capsule. */
  method FailedLookupShowsForm(panel: CapsulePanel) returns (lookup: Option<string>)
    requires panel.view == Open && !AllWhitespace(panel.inputKey)
    modifies panel
    ensures lookup == Some(Trim(panel.inputKey))
    ensures PanelFor(panel.view, panel.capsuleId, panel.retrieved) == LookupForm && !panel.loading
  {
    lookup := panel.BeginOpen();
    panel.FinishOpen(None);
  }
}
