/** The chat server's state: the participants collection and the append-only
    message log, with one method per request handler and one for the
    inactivity sweep. */
module Chat {
  import opened Text
  import opened Messages
  import opened Schemas

  /** Milliseconds without a heartbeat after which the sweep evicts a participant. */
  const StaleAfterMillis: int := 10000
  /** The recipient of messages meant for everyone. */
  const Everyone: string := "Todos"
  const JoinText: string := "entra na sala..."
  const LeaveText: string := "sai da sala..."

  /** A participant record; `lastStatus` is the millisecond clock at its last sign of life. */
  datatype Participant = Participant(name: string, lastStatus: int)

  /** The status message written when `name` joins. */
  function JoinNotice(name: string, time: string): Message {
    Message(name, Everyone, JoinText, StatusNotice, time)
  }

  /** The status message written when the sweep evicts `name`. */
  function LeaveNotice(name: string, time: string): Message {
    Message(name, Everyone, LeaveText, StatusNotice, time)
  }

  /** Join and leave notices are well formed for every trimmed, non-empty name. */
  lemma NoticesWellFormed(name: string, time: string)
    requires IsTrimmedNonEmpty(name)
    ensures WellFormed(JoinNotice(name, time)) && WellFormed(LeaveNotice(name, time))
  {
  }

  predicate IsRegistered(ps: seq<Participant>, name: string) {
    exists i :: 0 <= i < |ps| && ps[i].name == name
  }

  predicate UniqueNames(ps: seq<Participant>) {
    forall i, j :: 0 <= i < j < |ps| ==> ps[i].name != ps[j].name
  }

  /** What every stored message satisfies: names and text are trimmed and
      non-empty, and a status notice is a join or leave notice for everyone. */
  predicate WellFormed(m: Message) {
    && IsTrimmedNonEmpty(m.from) && IsTrimmedNonEmpty(m.to) && IsTrimmedNonEmpty(m.text)
    && (m.kind == StatusNotice ==> m.to == Everyone && (m.text == JoinText || m.text == LeaveText))
  }

  /** findOne({name}) on the participants: the position of the first record with that name. */
  function IndexOf(ps: seq<Participant>, name: string): (r: Option<nat>)
    ensures r.None? <==> !IsRegistered(ps, name)
    ensures r.Some? ==> r.value < |ps| && ps[r.value].name == name
    ensures r.Some? ==> forall j :: 0 <= j < r.value ==> ps[j].name != name
  {
    if ps == [] then None
    else if ps[0].name == name then Some(0)
    else
      match IndexOf(ps[1..], name)
      case None => None
      case Some(i) => Some(i + 1)
  }

  /** deleteOne({name}) on the participants: removes the first record with that name. */
  function DeleteOne(ps: seq<Participant>, name: string): seq<Participant> {
    if ps == [] then []
    else if ps[0].name == name then ps[1..]
    else [ps[0]] + DeleteOne(ps[1..], name)
  }

  /** deleteOne removes the first record with the name, and leaves the rest in order. */
  lemma {:induction false} DeleteOneFirst(before: seq<Participant>, p: Participant, after: seq<Participant>)
    requires forall j :: 0 <= j < |before| ==> before[j].name != p.name
    ensures DeleteOne(before + [p] + after, p.name) == before + after
  {
    if before == [] {
      assert before + [p] + after == [p] + after;
    } else {
      DeleteOneFirst(before[1..], p, after);
      assert (before + [p] + after)[1..] == before[1..] + [p] + after;
      assert before + after == [before[0]] + (before[1..] + after);
    }
  }

  /** deleteOne by a name no record has leaves the participants as they were. */
  lemma {:induction false} DeleteOneAbsent(ps: seq<Participant>, name: string)
    requires !IsRegistered(ps, name)
    ensures DeleteOne(ps, name) == ps
  {
    if ps != [] {
      assert ps[0].name != name;
      assert !IsRegistered(ps[1..], name) by {
        forall i | 0 <= i < |ps[1..]| ensures ps[1..][i].name != name {
          assert ps[1..][i] == ps[i + 1];
        }
      }
      DeleteOneAbsent(ps[1..], name);
      assert [ps[0]] + ps[1..] == ps;
    }
  }

  predicate IsStale(p: Participant, now: int) {
    now - p.lastStatus >= StaleAfterMillis
  }

  /** The participants a sweep at time `now` keeps, in their original order. */
  function Survivors(ps: seq<Participant>, now: int): seq<Participant>
    decreases |ps|
  {
    if ps == [] then []
    else
      var last := ps[|ps| - 1];
      Survivors(ps[..|ps| - 1], now) + if IsStale(last, now) then [] else [last]
  }

  /** The leave notices a sweep at time `now` writes, in sweep order. */
  function Departures(ps: seq<Participant>, now: int, time: string): seq<Message>
    decreases |ps|
  {
    if ps == [] then []
    else
      var last := ps[|ps| - 1];
      Departures(ps[..|ps| - 1], now, time) + if IsStale(last, now) then [LeaveNotice(last.name, time)] else []
  }

  /** A sweep keeps exactly the participants that are not stale, as they were. */
  lemma {:induction false} SurvivorsAreTheFresh(ps: seq<Participant>, now: int)
    ensures forall p :: p in Survivors(ps, now) <==> p in ps && !IsStale(p, now)
    decreases |ps|
  {
    if ps != [] {
      var init, last := ps[..|ps| - 1], ps[|ps| - 1];
      SurvivorsAreTheFresh(init, now);
      assert ps == init + [last];
    }
  }

  /** A sweep keeps the survivors in their order. */
  lemma {:induction false} SurvivorsKeepOrder(ps: seq<Participant>, now: int)
    ensures IsSubsequence(Survivors(ps, now), ps)
    decreases |ps|
  {
    if ps != [] {
      var init := ps[..|ps| - 1];
      SurvivorsKeepOrder(init, now);
      var r := Survivors(ps, now);
      if !IsStale(ps[|ps| - 1], now) {
        assert r[..|r| - 1] == Survivors(init, now);
      } else {
        assert r == Survivors(init, now);
      }
    }
  }

  /** A sweep writes one leave notice per participant it evicts, and nothing else. */
  lemma {:induction false} DeparturesAreTheStale(ps: seq<Participant>, now: int, time: string)
    ensures |Departures(ps, now, time)| + |Survivors(ps, now)| == |ps|
    ensures forall p :: p in ps && IsStale(p, now) ==> LeaveNotice(p.name, time) in Departures(ps, now, time)
    ensures forall m :: m in Departures(ps, now, time) ==>
              exists p :: p in ps && IsStale(p, now) && m == LeaveNotice(p.name, time)
    decreases |ps|
  {
    if ps != [] {
      var init, last := ps[..|ps| - 1], ps[|ps| - 1];
      DeparturesAreTheStale(init, now, time);
      assert ps == init + [last];
    }
  }

  /** A sweep keeps distinct names distinct. */
  lemma {:induction false} SurvivorsKeepUniqueNames(ps: seq<Participant>, now: int)
    requires UniqueNames(ps)
    ensures UniqueNames(Survivors(ps, now))
    decreases |ps|
  {
    if ps != [] {
      var init, last := ps[..|ps| - 1], ps[|ps| - 1];
      SurvivorsKeepUniqueNames(init, now);
      SurvivorsAreTheFresh(init, now);
      var kept := Survivors(init, now);
      forall p | p in kept ensures p.name != last.name {
        var i :| 0 <= i < |init| && init[i] == p;
        assert ps[i] == p;
      }
    }
  }

  /** What GET /messages lists is visible to the reader and in log order. */
  lemma WindowOfVisible(log: seq<Message>, reader: string, limit: Option<int>)
    ensures IsSubsequence(Window(VisibleTo(log, reader), limit), log)
    ensures forall i :: 0 <= i < |Window(VisibleTo(log, reader), limit)| ==> Visible(Window(VisibleTo(log, reader), limit)[i], reader)
  {
    VisibleToIsSubsequence(log, reader);
    WindowKeepsOrder(VisibleTo(log, reader), log, limit);
  }

  /** What every store state satisfies: participant names are unique, trimmed
      and non-empty, and every message is well formed. */
  ghost predicate StoreInvariant(ps: seq<Participant>, log: seq<Message>) {
    && UniqueNames(ps)
    && (forall p :: p in ps ==> IsTrimmedNonEmpty(p.name))
    && (forall m :: m in log ==> WellFormed(m))
  }

  /** Registering a new trimmed name keeps the invariant. */
  lemma JoinKeepsInvariant(ps: seq<Participant>, log: seq<Message>, name: string, now: int, time: string)
    requires StoreInvariant(ps, log) && IsTrimmedNonEmpty(name) && !IsRegistered(ps, name)
    ensures StoreInvariant(ps + [Participant(name, now)], log + [JoinNotice(name, time)])
  {
  }

  /** Refreshing a participant's lastStatus keeps the invariant. */
  lemma RefreshKeepsInvariant(ps: seq<Participant>, log: seq<Message>, i: nat, now: int)
    requires StoreInvariant(ps, log) && i < |ps|
    ensures StoreInvariant(ps[i := Participant(ps[i].name, now)], log)
  {
  }

  /** Posting a message with trimmed non-empty fields, other than a status notice, keeps the invariant. */
  lemma PostKeepsInvariant(ps: seq<Participant>, log: seq<Message>, m: Message)
    requires StoreInvariant(ps, log)
    requires IsTrimmedNonEmpty(m.from) && IsTrimmedNonEmpty(m.to) && IsTrimmedNonEmpty(m.text)
    requires m.kind != StatusNotice
    ensures StoreInvariant(ps, log + [m])
  {
  }

  /** A sweep keeps the invariant: names stay unique and its notices are well formed. */
  lemma SweepKeepsInvariant(ps: seq<Participant>, log: seq<Message>, now: int, time: string)
    requires StoreInvariant(ps, log)
    ensures StoreInvariant(Survivors(ps, now), log + Departures(ps, now, time))
  {
    SurvivorsKeepUniqueNames(ps, now);
    SurvivorsAreTheFresh(ps, now);
    DeparturesWellFormed(ps, now, time);
  }

  /** The participants and messages collections, with the request handlers
      and the sweep as methods. The clock (`now`) and the formatted time stamp
      (`time`) are passed in by the caller. */
  class ChatStore {
    var participants: seq<Participant>
    var messages: seq<Message>

    ghost predicate Valid()
      reads this
    {
      StoreInvariant(participants, messages)
    }

    constructor ()
      ensures Valid() && participants == [] && messages == []
    {
      participants := [];
      messages := [];
    }

    /** POST /participants with request body `body`. */
    method Register(body: Json, now: int, time: string) returns (r: RegisterReply)
      requires Valid()
      modifies this
      ensures Valid()
      ensures r.InvalidUser? <==> ValidateUser(body).Rejected?
      ensures r.InvalidUser? ==> r.errors == ValidateUser(body).errors
      ensures r.NameTaken? <==> ValidateUser(body).Accepted? && IsRegistered(old(participants), ValidateUser(body).value)
      ensures !r.Registered? ==> participants == old(participants) && messages == old(messages)
      ensures r.Registered? ==>
                && r.name == ValidateUser(body).value
                && participants == old(participants) + [Participant(r.name, now)]
                && messages == old(messages) + [JoinNotice(r.name, time)]
    {
      match ValidateUser(body)
      case Rejected(errors) =>
        r := InvalidUser(errors);
      case Accepted(name) =>
        if IndexOf(participants, name).Some? {
          r := NameTaken;
        } else {
          JoinKeepsInvariant(participants, messages, name, now, time);
          participants := participants + [Participant(name, now)];
          messages := messages + [JoinNotice(name, time)];
          r := Registered(name);
        }
    }

    /** GET /participants: the names, in store order. */
    method ListNames() returns (names: seq<string>)
      ensures |names| == |participants|
      ensures forall i :: 0 <= i < |participants| ==> names[i] == participants[i].name
    {
      names := seq(|participants|, i requires 0 <= i < |participants| reads this => participants[i].name);
    }

    /** POST /status with header `user`: refreshes that participant's lastStatus. */
    method Heartbeat(user: string, now: int) returns (r: HeartbeatReply)
      requires Valid()
      modifies this
      ensures Valid()
      ensures r.UnknownUser? <==> !IsRegistered(old(participants), user)
      ensures messages == old(messages)
      ensures r.UnknownUser? ==> participants == old(participants)
      ensures r.Refreshed? ==>
                && |participants| == |old(participants)|
                && forall i :: 0 <= i < |participants| ==>
                     participants[i] == if old(participants)[i].name == user then Participant(user, now) else old(participants)[i]
    {
      match IndexOf(participants, user)
      case None =>
        r := UnknownUser;
      case Some(i) =>
        RefreshKeepsInvariant(participants, messages, i, now);
        participants := participants[i := Participant(user, now)];
        r := Refreshed;
    }

    /** POST /messages with header `user` and request body `body`. */
    method Post(user: string, body: Json, time: string) returns (r: PostReply)
      requires Valid()
      modifies this
      ensures Valid()
      ensures participants == old(participants)
      ensures r.InvalidMessage? <==> ValidateMessage(body).Rejected?
      ensures r.InvalidMessage? ==> r.errors == ValidateMessage(body).errors
      ensures r.NotLoggedIn? <==> ValidateMessage(body).Accepted? && !IsRegistered(participants, user)
      ensures !r.Posted? ==> messages == old(messages)
      ensures r.Posted? ==>
                var d := ValidateMessage(body).value;
                messages == old(messages) + [Message(user, d.to, d.text, d.kind, time)]
    {
      match ValidateMessage(body)
      case Rejected(errors) =>
        r := InvalidMessage(errors);
      case Accepted(d) =>
        match IndexOf(participants, user)
        case None =>
          r := NotLoggedIn;
        case Some(i) =>
          assert participants[i] in participants;
          PostKeepsInvariant(participants, messages, Message(user, d.to, d.text, d.kind, time));
          messages := messages + [Message(user, d.to, d.text, d.kind, time)];
          r := Posted;
    }

    /** GET /messages with header `user` and the numeric query `limit`, if any. */
    method ListVisible(user: string, limit: Option<int>) returns (r: ListReply)
      ensures r.Unauthorized? <==> !IsRegistered(participants, user)
      ensures r.Listed? ==> r.messages == Window(VisibleTo(messages, user), limit)
      ensures r.Listed? ==> IsSubsequence(r.messages, messages)
      ensures r.Listed? ==> forall i :: 0 <= i < |r.messages| ==> Visible(r.messages[i], user)
    {
      match IndexOf(participants, user)
      case None =>
        r := Unauthorized;
      case Some(_) =>
        WindowOfVisible(messages, user, limit);
        r := Listed(Window(VisibleTo(messages, user), limit));
    }

    /** One run of the inactivity sweep at time `now`: each participant silent
        for at least StaleAfterMillis gets a leave notice and is deleted. */
    method EvictStale(now: int, time: string)
      requires Valid()
      modifies this
      ensures Valid()
      ensures participants == Survivors(old(participants), now)
      ensures messages == old(messages) + Departures(old(participants), now, time)
    {
      SweepKeepsInvariant(participants, messages, now, time);
      var kept, log := Sweep(participants, messages, now, time);
      participants, messages := kept, log;
    }
  }

  /** The loop of the sweep over a snapshot of the participants: each stale
      record is deleted by name and its leave notice appended to the log. */
  method Sweep(snapshot: seq<Participant>, log0: seq<Message>, now: int, time: string)
    returns (kept: seq<Participant>, log: seq<Message>)
    requires UniqueNames(snapshot)
    ensures kept == Survivors(snapshot, now)
    ensures log == log0 + Departures(snapshot, now, time)
  {
    kept, log := snapshot, log0;
    var i := 0;
    while i < |snapshot|
      invariant 0 <= i <= |snapshot|
      invariant kept == Survivors(snapshot[..i], now) + snapshot[i..]
      invariant log == log0 + Departures(snapshot[..i], now, time)
    {
      var p := snapshot[i];
      if IsStale(p, now) {
        SweepEvicts(snapshot, i, now, log0, time);
        log := log + [LeaveNotice(p.name, time)];
        kept := DeleteOne(kept, p.name);
      } else {
        SweepKeeps(snapshot, i, now, time);
      }
      i := i + 1;
    }
    assert snapshot[..i] == snapshot && snapshot[i..] == [];
  }

  /** A sweep step over a fresh `snapshot[i]` keeps it and writes nothing. */
  lemma SweepKeeps(snapshot: seq<Participant>, i: nat, now: int, time: string)
    requires i < |snapshot| && !IsStale(snapshot[i], now)
    ensures Survivors(snapshot[..i + 1], now) + snapshot[i + 1..] == Survivors(snapshot[..i], now) + snapshot[i..]
    ensures Departures(snapshot[..i + 1], now, time) == Departures(snapshot[..i], now, time)
  {
    assert snapshot[..i + 1][..i] == snapshot[..i];
  }

  /** Over a stale `snapshot[i]` the survivors stay as they were and its leave notice is written. */
  lemma StaleStep(snapshot: seq<Participant>, i: nat, now: int, log0: seq<Message>, time: string)
    requires i < |snapshot| && IsStale(snapshot[i], now)
    ensures Survivors(snapshot[..i + 1], now) == Survivors(snapshot[..i], now)
    ensures log0 + Departures(snapshot[..i + 1], now, time)
            == log0 + Departures(snapshot[..i], now, time) + [LeaveNotice(snapshot[i].name, time)]
  {
    assert snapshot[..i + 1][..i] == snapshot[..i];
  }

  /** With unique names, no participant the sweep kept from before position `i` shares the name at `i`. */
  lemma SurvivorsBeforeDiffer(snapshot: seq<Participant>, i: nat, now: int)
    requires i < |snapshot| && UniqueNames(snapshot)
    ensures forall j :: 0 <= j < |Survivors(snapshot[..i], now)| ==> Survivors(snapshot[..i], now)[j].name != snapshot[i].name
  {
    var kept := Survivors(snapshot[..i], now);
    SurvivorsAreTheFresh(snapshot[..i], now);
    forall j | 0 <= j < |kept| ensures kept[j].name != snapshot[i].name {
      assert kept[j] in snapshot[..i];
      var k :| 0 <= k < i && snapshot[..i][k] == kept[j];
      assert snapshot[k] == kept[j];
    }
  }

  /** A sweep step over a stale `snapshot[i]` deletes it by name and writes its
      leave notice; names are unique, so the deletion hits that record. */
  lemma SweepEvicts(snapshot: seq<Participant>, i: nat, now: int, log0: seq<Message>, time: string)
    requires i < |snapshot| && UniqueNames(snapshot) && IsStale(snapshot[i], now)
    ensures Survivors(snapshot[..i + 1], now) + snapshot[i + 1..]
            == DeleteOne(Survivors(snapshot[..i], now) + snapshot[i..], snapshot[i].name)
    ensures log0 + Departures(snapshot[..i + 1], now, time)
            == log0 + Departures(snapshot[..i], now, time) + [LeaveNotice(snapshot[i].name, time)]
  {
    StaleStep(snapshot, i, now, log0, time);
    var kept := Survivors(snapshot[..i], now);
    SurvivorsBeforeDiffer(snapshot, i, now);
    DeleteOneFirst(kept, snapshot[i], snapshot[i + 1..]);
    assert kept + snapshot[i..] == kept + [snapshot[i]] + snapshot[i + 1..];
  }

  /** The notices a sweep writes are well formed when the names it sweeps are. */
  lemma DeparturesWellFormed(ps: seq<Participant>, now: int, time: string)
    requires forall p :: p in ps ==> IsTrimmedNonEmpty(p.name)
    ensures forall m :: m in Departures(ps, now, time) ==> WellFormed(m)
  {
  }

  datatype RegisterReply = Registered(name: string) | InvalidUser(errors: set<ValidationError>) | NameTaken
  {
    function Code(): int {
      match this
      case Registered(_) => 201
      case InvalidUser(_) => 422
      case NameTaken => 409
    }
  }

  datatype HeartbeatReply = Refreshed | UnknownUser
  {
    function Code(): int {
      match this
      case Refreshed => 200
      case UnknownUser => 404
    }
  }

  datatype PostReply = Posted | InvalidMessage(errors: set<ValidationError>) | NotLoggedIn
  {
    function Code(): int {
      match this
      case Posted => 201
      case InvalidMessage(_) => 422
      case NotLoggedIn => 422
    }
  }

  datatype ListReply = Listed(messages: seq<Message>) | Unauthorized
  {
    function Code(): int {
      match this
      case Listed(_) => 200
      case Unauthorized => 401
    }
  }
}
