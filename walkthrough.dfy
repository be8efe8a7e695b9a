/** The scenario of a participant who joins, posts, and is evicted, run
    against the contracts of the store. */
module Walkthrough {
  import opened Text
  import opened Messages
  import opened Schemas
  import opened Chat

  const AnaJoinRequest: Json := JObject(map["name" := JString("Ana")])
  const Hello: map<string, Json> := map["to" := JString("Todos"), "text" := JString("hi"), "type" := JString("message")]

  /** The join request carries an already trimmed name. */
  lemma AnaJoinRequestIsValid()
    ensures ValidateUser(AnaJoinRequest) == Accepted("Ana")
  {
    assert IsTrimmedNonEmpty("Ana");
    TrimOfTrimmed("Ana");
  }

  /** The greeting is a valid public message. */
  lemma HelloIsValid()
    ensures ValidateMessage(JObject(Hello)) == Accepted(Draft("Todos", "hi", Chat))
  {
    assert IsTrimmedNonEmpty("hi") && IsTrimmedNonEmpty("Todos");
    TrimOfTrimmed("hi");
    TrimOfTrimmed("Todos");
    assert MessageFieldsValid(Hello);
  }

  /** Ana joins; a second join under her name is refused. */
  method AnaJoins() returns (store: ChatStore, again: RegisterReply)
    ensures fresh(store) && store.Valid()
    ensures again == NameTaken && again.Code() == 409
    ensures store.participants == [Participant("Ana", 0)]
    ensures store.messages == [JoinNotice("Ana", "10:00:00")]
  {
    store := new ChatStore();
    AnaJoinRequestIsValid();
    var joined := store.Register(AnaJoinRequest, 0, "10:00:00");
    assert joined == Registered("Ana");
    assert store.participants[0].name == "Ana";

    again := store.Register(AnaJoinRequest, 500, "10:00:00");
    assert again.NameTaken?;
  }

  /** Ana greets everyone; Bob, who never joined, may not read the log. */
  method AnaJoinsAndPosts() returns (store: ChatStore, posted: PostReply, denied: ListReply)
    ensures fresh(store) && store.Valid()
    ensures posted == Posted && denied == Unauthorized && denied.Code() == 401
    ensures store.participants == [Participant("Ana", 0)] && |store.messages| == 2
  {
    var again;
    store, again := AnaJoins();
    assert store.participants[0].name == "Ana";
    HelloIsValid();
    posted := store.Post("Ana", JObject(Hello), "10:00:01");
    assert posted == Posted;

    assert "Ana" != "Bob";
    denied := store.ListVisible("Bob", None);
    assert denied == Unauthorized;
  }

  /** Ten silent seconds later the sweep removes Ana and announces it. */
  method AnaLeaves() returns (store: ChatStore)
    ensures fresh(store) && store.Valid()
    ensures store.participants == [] && |store.messages| == 3
    ensures store.messages[2] == LeaveNotice("Ana", "10:00:10")
  {
    var posted, denied;
    store, posted, denied := AnaJoinsAndPosts();
    var before := store.messages;
    store.EvictStale(10000, "10:00:10");
    var ana := [Participant("Ana", 0)];
    assert ana[..0] == [];
    assert Survivors(ana, 10000) == [];
    assert Departures(ana, 10000, "10:00:10") == [LeaveNotice("Ana", "10:00:10")];
    assert store.participants == [];
    assert store.messages == before + [LeaveNotice("Ana", "10:00:10")];
  }
}
