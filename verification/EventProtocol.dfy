/**
 * The v2 event protocol across its two threads. The receive thread (ws_handle_v2_event,
 * src/network/websocket.c:1037-1176) checks, records, dispatches and queues an ACK; the report
 * thread (src/core/main.c:783-813) takes a snapshot, sends and clears. Each call that holds the
 * state mutex is one step; a run is any interleaving of steps.
 */
module EventProtocol {
  import opened Bytes
  import opened EventStore
  import Strtol

  // ---------------------------------------------------------------- events

  /** The JSON id of an event; `value` is the number already converted to a `long`. */
  datatype WireId = NoId | Text(text: CStr) | Number(value: int)

  /** What the method of an event leads to. `unsafe` is a CR or LF in the field that must not have one. */
  datatype Kind = Exec | Ping(unsafe: bool) | Terminal(unsafe: bool) | Informational | Unknown | NoMethod

  datatype Event = Event(id: WireId, kind: Kind)

  /** The ACK id a string id stands for; 0 when there is none. */
  function NumericForm(id: CStr): int {
    match Strtol.Parse(id)
    case None => 0
    case Some(v) => if v > 0 then ToInt(v) else 0
  }

  /** The string under which an event is deduplicated, if it has one. */
  function Key(id: WireId): Option<CStr> {
    match id
    case NoId => None
    case Text(t) => if t == [] then None else Some(t)
    case Number(v) => if v > 0 then Some(Strtol.Decimal(v)) else None
  }

  function AckId(id: WireId): int {
    match id
    case NoId => 0
    case Text(t) => if t == [] then 0 else NumericForm(t)
    case Number(v) => if v > 0 then ToInt(v) else 0
  }

  /** Numbers an id field can hold once converted to a `long`. */
  predicate IsWireId(id: WireId) {
    id.Number? ==> id.value <= Strtol.LONG_MAX
  }

  /** Text and number ids agree: the ACK id is the numeric form of the dedup key. */
  lemma AckIsNumericForm(id: WireId)
    requires IsWireId(id)
    ensures Key(id).Some? ==> AckId(id) == NumericForm(Key(id).value)
    ensures Key(id).None? ==> AckId(id) == 0
  {
    if id.Number? && id.value > 0 { Strtol.ParseDecimal(id.value); }
  }

  /** Which key an event is deduplicated under, and which ACK id it has, id by id. */
  lemma IdsInNumbers(v: int, t: CStr)
    ensures Key(NoId) == Key(Text([])) == None && AckId(NoId) == AckId(Text([])) == 0
    ensures t != [] ==> Key(Text(t)) == Some(t)
    ensures v > 0 ==> Key(Number(v)) == Some(Strtol.Decimal(v)) && (v - AckId(Number(v))) % 4294967296 == 0
    ensures v <= 0 ==> Key(Number(v)) == None && AckId(Number(v)) == 0
  {
  }

  /** The ACK id of a text is the number it starts with, behind any white space and sign, when that is positive. */
  lemma TextAckInNumbers(spaces: CStr, sign: CStr, digits: CStr, rest: CStr)
    requires Strtol.IsNumeral(spaces, sign, digits, rest)
    ensures var v, ack := Strtol.Value(digits), AckId(Text(spaces + sign + digits + rest));
            && (sign == [45] ==> ack == 0)
            && (sign != [45] && v <= 2147483647 ==> ack == v)
            && (sign != [45] && 2147483647 < v ==>
                  ((if v > 9223372036854775807 then 9223372036854775807 else v) - ack) % 4294967296 == 0)
  {
    Strtol.ParseNumeral(spaces, sign, digits, rest);
    if Strtol.Value(digits) <= INT_MAX { ToIntExact(Strtol.Value(digits)); }
  }

  /** The ACK id says which event is meant: printed, it is the dedup key. */
  predicate AckIsExact(id: WireId) {
    AckId(id) > 0 && Key(id) == Some(Strtol.Decimal(AckId(id)))
  }

  /** Exactly the ids written as a number from 1 to INT_MAX, without leading zeros, have an ACK id of their own. */
  lemma AckIsExactIff(id: WireId)
    ensures AckIsExact(id) <==>
              Key(id).Some? && Strtol.IsCanonical(Key(id).value) && 1 <= Strtol.Value(Key(id).value) <= INT_MAX
  {
    if AckIsExact(id) {
      Strtol.DecimalIsCanonical(AckId(id));
      Strtol.ValueOfDecimal(AckId(id));
    } else if Key(id).Some? && Strtol.IsCanonical(Key(id).value) && 1 <= Strtol.Value(Key(id).value) <= INT_MAX {
      CanonicalAck(id);
    }
  }

  lemma CanonicalForm(k: CStr)
    requires Strtol.IsCanonical(k) && 1 <= Strtol.Value(k) <= INT_MAX
    ensures NumericForm(k) == Strtol.Value(k)
  {
    Strtol.ParseCanonical(k);
  }

  lemma NumberAck(v: int)
    requires 1 <= v <= INT_MAX
    ensures AckIsExact(Number(v))
  {
    ToIntExact(v);
    assert AckId(Number(v)) == v;
    assert Key(Number(v)) == Some(Strtol.Decimal(v));
  }

  lemma TextAck(k: CStr)
    requires Strtol.IsCanonical(k) && 1 <= Strtol.Value(k) <= INT_MAX
    ensures AckIsExact(Text(k))
  {
    CanonicalForm(k);
    Strtol.DecimalOfValue(k);
  }

  lemma CanonicalAck(id: WireId)
    requires Key(id).Some? && Strtol.IsCanonical(Key(id).value) && 1 <= Strtol.Value(Key(id).value) <= INT_MAX
    ensures AckIsExact(id)
  {
    if id.Number? {
      Strtol.ValueOfDecimal(id.value);
      NumberAck(id.value);
    } else {
      TextAck(id.text);
    }
  }

  /** Events whose ids are exact share an ACK id only if they are the same event. */
  lemma ExactAcksDiffer(a: WireId, b: WireId)
    requires AckIsExact(a) && AckIsExact(b) && AckId(a) == AckId(b)
    ensures Key(a) == Key(b)
  {
  }

  /** Past INT_MAX different events can share one. */
  lemma LargeIdsAlias()
    ensures AckId(Number(0x1_0000_0001)) == AckId(Number(1)) == 1
  {
  }

  /** So can any text behind a space, or with something behind its number: "7x" and " 7" count as "7". */
  lemma TextsAlias(k: CStr, space: byte, more: byte, rest: CStr)
    requires Strtol.IsCanonical(k) && 1 <= Strtol.Value(k) <= INT_MAX
    requires Strtol.IsSpace(space) && !Strtol.IsDigit(more)
    ensures AckId(Text(k)) == AckId(Text(k + [more] + rest)) == AckId(Text([space] + k)) == Strtol.Value(k)
    ensures AckIsExact(Text(k)) && !AckIsExact(Text(k + [more] + rest)) && !AckIsExact(Text([space] + k))
  {
    CanonicalForm(k);
    CanonicalAck(Text(k));
    Strtol.ParseLonger(k, [more] + rest);
    Strtol.ParseBehindSpace(k, space);
    assert k + ([more] + rest) == k + [more] + rest;
    assert (k + [more] + rest)[|k|] == more && ([space] + k)[0] == space;
    Strtol.DecimalOfValue(k);
  }

  predicate IsProcessed(m: Kind) {
    !m.Unknown? && !m.NoMethod?
  }

  predicate CallsHandler(m: Kind) {
    m.Exec? || ((m.Ping? || m.Terminal?) && !m.unsafe)
  }

  // ---------------------------------------------------------------- states and steps

  /** Where the receive thread stands with its current event. */
  datatype Receiver =
    | Ready
    | Arrived(event: Event)
    | Unseen(event: Event, key: CStr)
    | Fresh(event: Event)
    | Duplicate(event: Event)
    | Handled(event: Event, ackable: bool)

  /** Where the report thread stands; `upTo` counts the ACKs queued when the snapshot was taken. */
  datatype Reporter = Resting | Holding(ids: seq<int>, upTo: nat) | Delivered(ids: seq<int>, upTo: nat)

  /** A handler call for an event with a key, made when `mark` ids had been recorded. */
  datatype Dispatch = Dispatch(event: Event, key: CStr, mark: nat)

  datatype State = State(
    seen: seq<CStr>, acks: seq<int>, receiver: Receiver, reporter: Reporter,
    recorded: seq<CStr>,       // every id recorded as seen, in order
    dispatched: seq<Dispatch>, // every handler call for an event with a key
    queued: seq<int>,          // every ACK queued since the list was last cleared
    reported: seq<int>)        // every ACK in a report that was sent

  const Initial := State([], [], Ready, Resting, [], [], [], [])

  datatype Step =
    | Deliver(event: Event) | Check | Record | Call | Ack
    | Snapshot | Send(ok: bool) | Clear

  /** One step of either thread, if it stands where the step starts. */
  function Next(s: State, step: Step): Option<State> {
    match step
    case Deliver(e) =>
      if s.receiver.Ready? && IsWireId(e.id) then Some(s.(receiver := Arrived(e))) else None
    case Check => DoCheck(s)
    case Record => DoRecord(s)
    case Call => DoCall(s)
    case Ack => DoAck(s)
    case Snapshot =>
      if s.reporter.Resting? then Some(s.(reporter := Holding(s.acks, |s.queued|))) else None
    case Send(ok) =>
      if !s.reporter.Holding? then None
      else if ok then
        Some(s.(reporter := Delivered(s.reporter.ids, s.reporter.upTo), reported := s.reported + s.reporter.ids))
      else Some(s.(reporter := Resting))
    case Clear =>
      if !s.reporter.Delivered? then None
      else if s.reporter.ids == [] then Some(s.(reporter := Resting))
      else Some(s.(reporter := Resting, acks := [], queued := []))
  }

  /** `v2_is_event_seen`, for an event with a key. */
  function DoCheck(s: State): Option<State> {
    if !s.receiver.Arrived? then None
    else
      var e := s.receiver.event;
      match Key(e.id)
      case None => Some(s.(receiver := Fresh(e)))
      case Some(k) => Some(s.(receiver := if k in s.seen then Duplicate(e) else Unseen(e, k)))
  }

  /** `v2_add_seen_event` */
  function DoRecord(s: State): Option<State> {
    if !s.receiver.Unseen? then None
    else
      var k := s.receiver.key;
      Some(s.(receiver := Fresh(s.receiver.event), seen := SeenAdd(s.seen, k),
              recorded := if k in s.seen then s.recorded else s.recorded + [k]))
  }

  /** Dispatch by method, outside the mutex; a duplicate skips it. */
  function DoCall(s: State): Option<State> {
    if s.receiver.Duplicate? then Some(s.(receiver := Handled(s.receiver.event, true)))
    else if !s.receiver.Fresh? then None
    else
      var e := s.receiver.event;
      var k := Key(e.id);
      Some(s.(receiver := Handled(e, IsProcessed(e.kind)),
              dispatched := if CallsHandler(e.kind) && k.Some?
                            then s.dispatched + [Dispatch(e, k.value, |s.recorded|)] else s.dispatched))
  }

  /** `v2_add_ack_event` */
  function DoAck(s: State): Option<State> {
    if !s.receiver.Handled? then None
    else
      var id := AckId(s.receiver.event.id);
      if id > 0 && s.receiver.ackable then
        Some(s.(receiver := Ready, acks := AckAdd(s.acks, id), queued := s.queued + [id]))
      else Some(s.(receiver := Ready))
  }

  /** The state after an interleaving, if every step in it could be taken. */
  function After(steps: seq<Step>): Option<State> {
    if steps == [] then Some(Initial)
    else
      match After(steps[..|steps| - 1])
      case None => None
      case Some(s) => Next(s, steps[|steps| - 1])
  }

  // ---------------------------------------------------------------- invariants

  /** The same id is never recorded twice within any 1001 consecutive records. */
  ghost predicate Spaced(recorded: seq<CStr>) {
    forall i, j :: 0 <= i < j < |recorded| && recorded[i] == recorded[j] ==> j - i > V2_SEEN_EVENTS_MAX
  }

  ghost predicate SeenInv(s: State) {
    s.seen == Newest(s.recorded, V2_SEEN_EVENTS_MAX) && Spaced(s.recorded)
  }

  /** Between recording an id and dispatching its event nothing else is recorded. */
  ghost predicate ReceiverInv(s: State) {
    match s.receiver
    case Ready => true
    case Arrived(e) => IsWireId(e.id)
    case Unseen(e, k) => IsWireId(e.id) && Key(e.id) == Some(k) && k !in s.seen
    case Fresh(e) =>
      IsWireId(e.id) && (Key(e.id).Some? ==> JustRecorded(s, Key(e.id).value))
    case Duplicate(e) => IsWireId(e.id) && Key(e.id).Some? && Key(e.id).value in s.recorded
    case Handled(e, _) => IsWireId(e.id) && (Key(e.id).Some? ==> Key(e.id).value in s.recorded)
  }

  /** `k` is the id recorded last, and no dispatch has used that record yet. */
  ghost predicate JustRecorded(s: State, k: CStr) {
    && s.recorded != [] && s.recorded[|s.recorded| - 1] == k
    && forall i :: 0 <= i < |s.dispatched| ==> s.dispatched[i].mark < |s.recorded|
  }

  /** Each dispatch is of the id recorded last before it, and no two share a record. */
  ghost predicate DispatchInv(s: State) {
    && (forall i :: 0 <= i < |s.dispatched| ==>
          1 <= s.dispatched[i].mark <= |s.recorded| && s.recorded[s.dispatched[i].mark - 1] == s.dispatched[i].key)
    && (forall i, j :: 0 <= i < j < |s.dispatched| ==> s.dispatched[i].mark < s.dispatched[j].mark)
  }

  /** A positive number that some recorded id stands for. */
  ghost predicate Stands(id: int, recorded: seq<CStr>) {
    id > 0 && exists k :: k in recorded && NumericForm(k) == id
  }

  ghost predicate AllStand(ids: seq<int>, recorded: seq<CStr>) {
    forall i :: 0 <= i < |ids| ==> Stands(ids[i], recorded)
  }

  ghost predicate AckInv(s: State) {
    s.acks == Newest(s.queued, V2_ACK_IDS_MAX) && AllStand(s.queued, s.recorded) && AllStand(s.reported, s.recorded)
  }

  ghost predicate ReporterInv(s: State) {
    !s.reporter.Resting? ==>
      && s.reporter.upTo <= |s.queued|
      && s.reporter.ids == Newest(s.queued[..s.reporter.upTo], V2_ACK_IDS_MAX)
      && (s.reporter.Delivered? ==> IsSuffix(s.reporter.ids, s.reported))
  }

  ghost predicate Inv(s: State) {
    SeenInv(s) && ReceiverInv(s) && DispatchInv(s) && AckInv(s) && ReporterInv(s)
  }

  // ---------------------------------------------------------------- every step keeps them

  lemma RecordKeeps(s: State)
    requires Inv(s) && s.receiver.Unseen?
    ensures Inv(DoRecord(s).value)
  {
    var k, t := s.receiver.key, DoRecord(s).value;
    PushKeepsNewest(s.recorded, k, V2_SEEN_EVENTS_MAX);
    assert t.recorded == s.recorded + [k];
    RecordedGrows(s, t);
    forall i | 0 <= i < |s.recorded| && s.recorded[i] == k ensures |s.recorded| - i > V2_SEEN_EVENTS_MAX {
      if |s.recorded| - i <= V2_SEEN_EVENTS_MAX { StillInQueue(s.recorded, i, V2_SEEN_EVENTS_MAX); }
    }
  }

  lemma StillInQueue<T>(h: seq<T>, i: nat, max: nat)
    requires |h| - max <= i < |h|
    ensures h[i] in Newest(h, max)
  {
    var q := Newest(h, max);
    assert q[i - (|h| - |q|)] == h[i];
  }

  /** Recording one more id invalidates nothing said about those recorded before. */
  lemma RecordedGrows(s: State, t: State)
    requires s.recorded <= t.recorded && s.dispatched == t.dispatched
    requires DispatchInv(s)
    ensures DispatchInv(t)
    ensures AllStand(s.queued, s.recorded) ==> AllStand(s.queued, t.recorded)
    ensures AllStand(s.reported, s.recorded) ==> AllStand(s.reported, t.recorded)
  {
    forall id | Stands(id, s.recorded) ensures Stands(id, t.recorded) {
      var k :| k in s.recorded && NumericForm(k) == id;
      assert k in t.recorded;
    }
  }

  lemma CheckKeepsReceiver(s: State)
    requires SeenInv(s) && ReceiverInv(s) && s.receiver.Arrived?
    ensures ReceiverInv(DoCheck(s).value)
  {
    var k := Key(s.receiver.event.id);
    if k.Some? && k.value in s.seen { assert k.value in s.recorded; }
  }

  lemma CheckKeeps(s: State)
    requires Inv(s) && s.receiver.Arrived?
    ensures Inv(DoCheck(s).value)
  {
    CheckKeepsReceiver(s);
    Untouched(s, DoCheck(s).value);
    SameDispatches(s, DoCheck(s).value);
  }

  lemma CallKeepsDispatch(s: State, e: Event, k: CStr)
    requires DispatchInv(s) && JustRecorded(s, k)
    ensures DispatchInv(s.(dispatched := s.dispatched + [Dispatch(e, k, |s.recorded|)]))
  {
  }

  lemma CallKeepsReceiver(s: State)
    requires ReceiverInv(s) && (s.receiver.Fresh? || s.receiver.Duplicate?)
    ensures ReceiverInv(DoCall(s).value)
  {
    var e := s.receiver.event;
    if s.receiver.Fresh? && Key(e.id).Some? { assert s.recorded[|s.recorded| - 1] in s.recorded; }
  }

  lemma SameDispatches(s: State, t: State)
    requires DispatchInv(s) && t.dispatched == s.dispatched && t.recorded == s.recorded
    ensures DispatchInv(t)
  {
  }

  lemma CallKeeps(s: State)
    requires Inv(s) && (s.receiver.Fresh? || s.receiver.Duplicate?)
    ensures Inv(DoCall(s).value)
  {
    var k, t := Key(s.receiver.event.id), DoCall(s).value;
    CallKeepsReceiver(s);
    Untouched(s, t);
    if t.dispatched == s.dispatched {
      SameDispatches(s, t);
    } else {
      var d := s.(dispatched := s.dispatched + [Dispatch(s.receiver.event, k.value, |s.recorded|)]);
      CallKeepsDispatch(s, s.receiver.event, k.value);
      SameDispatches(d, t);
    }
  }

  /** A step that leaves both lists and the report thread alone keeps what is said about them. */
  lemma Untouched(s: State, t: State)
    requires Inv(s) && t.seen == s.seen && t.acks == s.acks && t.reporter == s.reporter
    requires t.recorded == s.recorded && t.queued == s.queued && t.reported == s.reported
    ensures SeenInv(t) && AckInv(t) && ReporterInv(t)
  {
  }

  lemma AckKeeps(s: State)
    requires Inv(s) && s.receiver.Handled?
    ensures Inv(DoAck(s).value)
  {
    var e := s.receiver.event;
    AckIsNumericForm(e.id);
    PushKeepsNewest(s.queued, AckId(e.id), V2_ACK_IDS_MAX);
    var t := DoAck(s).value;
    if !s.reporter.Resting? { assert t.queued[..s.reporter.upTo] == s.queued[..s.reporter.upTo]; }
    if AckId(e.id) > 0 { assert Stands(AckId(e.id), s.recorded); }
  }

  lemma SnapshotKeeps(s: State)
    requires Inv(s) && s.reporter.Resting?
    ensures Inv(s.(reporter := Holding(s.acks, |s.queued|)))
  {
    assert s.queued[..|s.queued|] == s.queued;
  }

  lemma NewestStand(h: seq<int>, upTo: nat, recorded: seq<CStr>)
    requires AllStand(h, recorded) && upTo <= |h|
    ensures AllStand(Newest(h[..upTo], V2_ACK_IDS_MAX), recorded)
  {
    var ids := Newest(h[..upTo], V2_ACK_IDS_MAX);
    assert forall i :: 0 <= i < |ids| ==> ids[i] == h[upTo - |ids| + i];
  }

  lemma ReportedStand(reported: seq<int>, ids: seq<int>, recorded: seq<CStr>)
    requires AllStand(reported, recorded) && AllStand(ids, recorded)
    ensures AllStand(reported + ids, recorded) && IsSuffix(ids, reported + ids)
  {
  }

  lemma SendKeeps(s: State, ok: bool)
    requires Inv(s) && s.reporter.Holding?
    ensures Inv(Next(s, Send(ok)).value)
  {
    NewestStand(s.queued, s.reporter.upTo, s.recorded);
    ReportedStand(s.reported, s.reporter.ids, s.recorded);
  }

  lemma ClearKeeps(s: State)
    requires Inv(s) && s.reporter.Delivered?
    ensures Inv(Next(s, Clear).value)
  {
  }

  lemma StepKeeps(s: State, step: Step)
    requires Inv(s) && Next(s, step).Some?
    ensures Inv(Next(s, step).value)
  {
    match step
    case Deliver(_) =>
    case Check => CheckKeeps(s);
    case Record => RecordKeeps(s);
    case Call => CallKeeps(s);
    case Ack => AckKeeps(s);
    case Snapshot => SnapshotKeeps(s);
    case Send(ok) => SendKeeps(s, ok);
    case Clear => ClearKeeps(s);
  }

  lemma {:induction false} Reachable(steps: seq<Step>)
    requires After(steps).Some?
    ensures Inv(After(steps).value)
  {
    if steps != [] {
      Reachable(steps[..|steps| - 1]);
      StepKeeps(After(steps[..|steps| - 1]).value, steps[|steps| - 1]);
    }
  }

  lemma ReporterReachable(steps: seq<Step>)
    requires After(steps).Some?
    ensures ReporterInv(After(steps).value)
  {
    Reachable(steps);
  }

  // ---------------------------------------------------------------- safety over every interleaving

  /**
   * At most once: between two dispatches of the same id at least 1000 other ids were recorded, all
   * different from it and from each other.
   */
  lemma AtMostOnce(steps: seq<Step>, i: nat, j: nat)
    requires After(steps).Some? && i < j < |After(steps).value.dispatched|
    requires After(steps).value.dispatched[i].key == After(steps).value.dispatched[j].key
    ensures var s := After(steps).value;
            var first, second := s.dispatched[i].mark, s.dispatched[j].mark - 1;
            && first <= second - 1000 && second <= |s.recorded|
            && NoDuplicates(s.recorded[second - 1000..second])
            && s.dispatched[i].key !in s.recorded[second - 1000..second]
  {
    Reachable(steps);
    var s := After(steps).value;
    SpacedWindow(s.recorded, s.dispatched[j].mark - 1);
  }

  lemma SpacedWindow(recorded: seq<CStr>, at: nat)
    requires Spaced(recorded) && V2_SEEN_EVENTS_MAX <= at < |recorded|
    ensures NoDuplicates(recorded[at - V2_SEEN_EVENTS_MAX..at])
    ensures recorded[at] !in recorded[at - V2_SEEN_EVENTS_MAX..at]
  {
  }

  // Which events are dispatched and which acknowledged, kind by kind.

  /** In every interleaving: nothing unsafe, informational or unknown is ever dispatched. */
  lemma {:induction false} OnlyActionsDispatched(steps: seq<Step>, i: nat)
    requires After(steps).Some? && i < |After(steps).value.dispatched|
    ensures var d := After(steps).value.dispatched[i];
            && (d.event.kind == Exec || d.event.kind == Ping(false) || d.event.kind == Terminal(false))
            && Key(d.event.id) == Some(d.key)
  {
    var before := After(steps[..|steps| - 1]).value;
    if i < |before.dispatched| { OnlyActionsDispatched(steps[..|steps| - 1], i); }
  }

  /** A fresh event is dispatched exactly when it has a key and is one of the three actions; a duplicate never. */
  lemma CallExactly(s: State)
    requires s.receiver.Fresh? || s.receiver.Duplicate?
    ensures Next(s, Call).Some?
    ensures var e, t := s.receiver.event, Next(s, Call).value;
            t.dispatched ==
              if s.receiver.Fresh? && Key(e.id).Some?
                 && (e.kind == Exec || e.kind == Ping(false) || e.kind == Terminal(false))
              then s.dispatched + [Dispatch(e, Key(e.id).value, |s.recorded|)] else s.dispatched
  {
  }

  /** Then its ACK id is queued exactly when positive, and the event is a duplicate or of a known kind. */
  lemma AckExactly(s: State)
    requires s.receiver.Fresh? || s.receiver.Duplicate?
    ensures Next(Next(s, Call).value, Ack).Some?
    ensures var e, t := s.receiver.event, Next(Next(s, Call).value, Ack).value;
            var wanted := AckId(e.id) > 0 && (s.receiver.Duplicate? || (e.kind != Unknown && e.kind != NoMethod));
            && t.receiver == Ready
            && t.queued == (if wanted then s.queued + [AckId(e.id)] else s.queued)
            && t.acks == (if wanted then AckAdd(s.acks, AckId(e.id)) else s.acks)
  {
  }

  /** The pending list stays bounded, and every pending or reported ACK stands for a recorded id. */
  lemma AcksStandForSeenIds(steps: seq<Step>)
    requires After(steps).Some?
    ensures var s := After(steps).value;
            && |s.acks| <= 1024 && |s.seen| <= 1000
            && AllStand(s.acks, s.recorded) && AllStand(s.reported, s.recorded)
  {
    Reachable(steps);
    var s := After(steps).value;
    forall i | 0 <= i < |s.acks| ensures Stands(s.acks[i], s.recorded) {
      assert s.acks[i] == s.queued[|s.queued| - |s.acks| + i];
    }
  }

  /** An ACK queued since the last clear is in the next snapshot unless 1024 later ones pushed it out. */
  lemma SnapshotHoldsPending(steps: seq<Step>, i: nat)
    requires After(steps + [Snapshot]).Some?
    requires After(steps).Some? && i < |After(steps).value.queued|
    ensures var s, t := After(steps).value, After(steps + [Snapshot]).value;
            t.reporter.Holding? &&
            (|s.queued| - i <= 1024 ==> s.queued[i] in t.reporter.ids)
  {
    Reachable(steps);
    assert (steps + [Snapshot])[..|steps|] == steps;
    var s := After(steps).value;
    if |s.queued| - i <= V2_ACK_IDS_MAX { StillInQueue(s.queued, i, V2_ACK_IDS_MAX); }
  }

  /**
   * A pending ACK leaves the list only by a clear after a report that was sent, or as the oldest of
   * 1024 when one more is queued.
   */
  lemma OnlyAfterSend(steps: seq<Step>, step: Step)
    requires After(steps).Some? && Next(After(steps).value, step).Some?
    ensures var s, t := After(steps).value, Next(After(steps).value, step).value;
            || s.acks <= t.acks
            || (step == Clear && s.reporter.Delivered? && IsSuffix(s.reporter.ids, s.reported))
            || (step == Ack && |s.acks| == 1024 && |t.acks| == 1024 && s.acks[1..] <= t.acks)
  {
    Reachable(steps);
  }

  /** Everything queued: pushed out before the snapshot, carried by the report, queued after it. */
  lemma QueueParts(s: State)
    requires ReporterInv(s) && !s.reporter.Resting?
    ensures var ids, upTo := s.reporter.ids, s.reporter.upTo;
            && |ids| == (if upTo <= V2_ACK_IDS_MAX then upTo else V2_ACK_IDS_MAX) && upTo <= |s.queued|
            && s.queued == s.queued[..upTo - |ids|] + ids + s.queued[upTo..]
  {
    var upTo := s.reporter.upTo;
    var before := s.queued[..upTo];
    assert before == before[..upTo - |s.reporter.ids|] + s.reporter.ids;
    assert s.queued == before + s.queued[upTo..];
  }

  /**
   * A clear loses exactly the ACKs its report did not carry: those queued after the snapshot, and
   * those that 1024 later ones had pushed out before it.
   */
  lemma ClearLosesExactly(steps: seq<Step>)
    requires After(steps).Some? && After(steps).value.reporter.Delivered?
    ensures var s := After(steps).value;
            var ids, upTo := s.reporter.ids, s.reporter.upTo;
            && |ids| == (if upTo <= 1024 then upTo else 1024) && upTo <= |s.queued|
            && s.queued == s.queued[..upTo - |ids|] + ids + s.queued[upTo..]
            && IsSuffix(ids, s.reported)
            && (ids != [] ==> Next(s, Clear).value.acks == [])
  {
    ReporterReachable(steps);
    QueueParts(After(steps).value);
  }

  /**
   * Nothing queued since the last clear goes unreported by the next one exactly when nothing was
   * queued after the snapshot, and no more than 1024 before it.
   */
  lemma ClearLosesNothingIff(steps: seq<Step>)
    requires After(steps).Some? && After(steps).value.reporter.Delivered?
    ensures var s := After(steps).value;
            s.queued == s.reporter.ids <==> s.reporter.upTo == |s.queued| && s.reporter.upTo <= 1024
    ensures var s := After(steps).value;
            Next(s, Clear).value.acks == if s.reporter.ids == [] then s.acks else []
  {
    ReporterReachable(steps);
    AllReportedIff(After(steps).value);
  }

  lemma AllReportedIff(s: State)
    requires ReporterInv(s) && !s.reporter.Resting?
    ensures s.queued == s.reporter.ids <==> s.reporter.upTo == |s.queued| && s.reporter.upTo <= V2_ACK_IDS_MAX
  {
    assert s.queued[..|s.queued|] == s.queued;
  }

  // ---------------------------------------------------------------- one event without interference

  /** What the receive thread makes of an event when nothing comes between its steps. */
  function IsSeen(seen: seq<CStr>, e: Event): bool {
    Key(e.id).Some? && Key(e.id).value in seen
  }

  function SeenAfter(seen: seq<CStr>, e: Event): seq<CStr> {
    match Key(e.id) case None => seen case Some(k) => SeenAdd(seen, k)
  }

  /** The steps the receive thread takes for an event. */
  function StepsFor(seen: seq<CStr>, e: Event): seq<Step> {
    if Key(e.id).None? || IsSeen(seen, e) then [Deliver(e), Check, Call, Ack]
    else [Deliver(e), Check, Record, Call, Ack]
  }

  function Take(s: State, steps: seq<Step>): Option<State>
    decreases |steps|
  {
    if steps == [] then Some(s)
    else
      match Next(s, steps[0])
      case None => None
      case Some(t) => Take(t, steps[1..])
  }

  /**
   * An event taken without interference: a duplicate is acknowledged again but neither recorded
   * nor dispatched; anything else is recorded, dispatched by its kind, and acknowledged if processed.
   */
  lemma Uninterrupted(s: State, e: Event)
    requires s.receiver.Ready? && IsWireId(e.id)
    ensures var t := Take(s, StepsFor(s.seen, e));
            && t.Some? && t.value.receiver.Ready?
            && t.value.seen == SeenAfter(s.seen, e)
            && t.value.acks == (if AckId(e.id) > 0 && (IsSeen(s.seen, e) || (e.kind != Unknown && e.kind != NoMethod))
                                then AckAdd(s.acks, AckId(e.id)) else s.acks)
            && (|t.value.dispatched| > |s.dispatched| <==>
                  Key(e.id).Some? && !IsSeen(s.seen, e)
                  && (e.kind == Exec || e.kind == Ping(false) || e.kind == Terminal(false)))
  {
    var s1 := Next(s, Deliver(e)).value;
    var s2 := Next(s1, Check).value;
    if Key(e.id).None? || IsSeen(s.seen, e) {
      TakeFour(s, e);
    } else {
      var s3 := Next(s2, Record).value;
      var s4 := Next(s3, Call).value;
      assert StepsFor(s.seen, e)[1..] == [Check, Record, Call, Ack];
      assert [Check, Record, Call, Ack][1..] == [Record, Call, Ack];
      assert [Record, Call, Ack][1..] == [Call, Ack] && [Call, Ack][1..] == [Ack] && [Ack][1..] == [];
      assert Take(s4, [Ack]) == Next(s4, Ack);
      assert Take(s2, [Record, Call, Ack]) == Take(s3, [Call, Ack]);
    }
  }

  lemma TakeFour(s: State, e: Event)
    requires s.receiver.Ready? && IsWireId(e.id) && (Key(e.id).None? || IsSeen(s.seen, e))
    ensures var s2 := Next(Next(s, Deliver(e)).value, Check).value;
            Take(s, StepsFor(s.seen, e)) == Next(Next(s2, Call).value, Ack)
  {
    var s2 := Next(Next(s, Deliver(e)).value, Check).value;
    assert [Deliver(e), Check, Call, Ack][1..] == [Check, Call, Ack];
    assert [Check, Call, Ack][1..] == [Call, Ack] && [Call, Ack][1..] == [Ack] && [Ack][1..] == [];
    var s3 := Next(s2, Call).value;
    assert Take(s3, [Ack]) == Next(s3, Ack);
    assert Take(s2, [Call, Ack]) == Take(s3, [Ack]);
  }

  // ---------------------------------------------------------------- a run in which an ACK is lost

  lemma TakeOne(s: State, steps: seq<Step>)
    requires steps != [] && Take(s, steps).Some?
    ensures Next(s, steps[0]).Some? && Take(s, steps) == Take(Next(s, steps[0]).value, steps[1..])
  {
  }

  lemma AfterSnoc(steps: seq<Step>, step: Step)
    ensures After(steps + [step]) == if After(steps).None? then None else Next(After(steps).value, step)
  {
    assert (steps + [step])[..|steps|] == steps;
  }

  /** A run goes on from where it stands. */
  lemma {:induction false} AfterConcat(steps: seq<Step>, more: seq<Step>)
    requires After(steps).Some? && Take(After(steps).value, more).Some?
    ensures After(steps + more) == Take(After(steps).value, more)
    decreases |more|
  {
    if more == [] {
      assert steps + more == steps;
    } else {
      TakeOne(After(steps).value, more);
      AfterSnoc(steps, more[0]);
      AfterConcat(steps + [more[0]], more[1..]);
      assert steps + [more[0]] + more[1..] == steps + more;
    }
  }

  function Execute(v: int): Event {
    Event(Number(v), Exec)
  }

  /** The steps the receive thread takes for an event seen for the first time. */
  function NewEvent(v: int): seq<Step> {
    [Deliver(Execute(v)), Check, Record, Call, Ack]
  }

  /** The state once such an event has been dealt with. */
  function WithEvent(s: State, v: nat): State {
    var k := Strtol.Decimal(v);
    s.(seen := SeenAdd(s.seen, k), recorded := s.recorded + [k],
       dispatched := s.dispatched + [Dispatch(Execute(v), k, |s.recorded| + 1)],
       acks := AckAdd(s.acks, v), queued := s.queued + [v])
  }

  lemma TakeFirst(s: State, steps: seq<Step>)
    requires steps != [] && Next(s, steps[0]).Some?
    ensures Take(s, steps) == Take(Next(s, steps[0]).value, steps[1..])
  {
  }

  lemma TakeNewEvent(s: State, v: nat)
    requires s.receiver.Ready? && 1 <= v <= INT_MAX && Strtol.Decimal(v) !in s.seen
    ensures Take(s, NewEvent(v)) == Some(WithEvent(s, v))
  {
    ToIntExact(v);
    var s1 := Next(s, Deliver(Execute(v))).value;
    var s2 := Next(s1, Check).value;
    var s3 := Next(s2, Record).value;
    var s4 := Next(s3, Call).value;
    TakeFirst(s, NewEvent(v));
    TakeFirst(s1, [Check, Record, Call, Ack]);
    TakeFirst(s2, [Record, Call, Ack]);
    TakeFirst(s3, [Call, Ack]);
    TakeFirst(s4, [Ack]);
  }

  lemma TakeReport(s: State)
    requires s.reporter.Resting?
    ensures Take(s, [Snapshot, Send(true)]) ==
            Some(s.(reporter := Delivered(s.acks, |s.queued|), reported := s.reported + s.acks))
  {
    TakeFirst(s, [Snapshot, Send(true)]);
    TakeFirst(Next(s, Snapshot).value, [Send(true)]);
  }

  /** The second event is handled between the report and the clear. */
  const LossyRun: seq<Step> := NewEvent(1) + [Snapshot, Send(true)] + NewEvent(2)

  lemma FirstReported()
    ensures var s := After(NewEvent(1) + [Snapshot, Send(true)]);
            && s.Some? && s.value.receiver.Ready? && s.value.reporter == Delivered([1], 1)
            && s.value.seen == [[49]] && s.value.acks == s.value.queued == s.value.reported == [1]
  {
    assert Strtol.Decimal(1) == [49];
    TakeNewEvent(Initial, 1);
    AfterConcat([], NewEvent(1));
    assert [] + NewEvent(1) == NewEvent(1);
    TakeReport(WithEvent(Initial, 1));
    AfterConcat(NewEvent(1), [Snapshot, Send(true)]);
  }

  /** Its ACK is pending and in no report, and the clear that comes next removes it. */
  lemma LateAckIsLost()
    ensures After(LossyRun).Some? && After(LossyRun + [Clear]).Some?
    ensures var s, t := After(LossyRun).value, After(LossyRun + [Clear]).value;
            && s.acks == s.queued == [1, 2] && s.reporter == Delivered([1], 1)
            && t.acks == t.queued == [] && t.reported == [1]
  {
    FirstReported();
    assert Strtol.Decimal(2) == [50];
    var s := After(NewEvent(1) + [Snapshot, Send(true)]).value;
    TakeNewEvent(s, 2);
    AfterConcat(NewEvent(1) + [Snapshot, Send(true)], NewEvent(2));
    TakeFirst(WithEvent(s, 2), [Clear]);
    AfterConcat(LossyRun, [Clear]);
  }
}
