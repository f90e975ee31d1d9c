/**
  `TaggerBotHandler.handle_message` of taggerbot.py: the command words of the
  default strings table, a branch per command, and the error handling around
  them. Each command loads a fresh `TagMapping` from the store, as the source
  does with `TagMapping().use(storage)`.
 */
module TaggerBot {

  import opened Wrappers
  import opened Text
  import opened Order
  import opened Storage
  import opened TagIndex
  import opened Mapping
  import opened Commands

  datatype Command = Help | List | Add | Remove | Search | Limit | Unlimit

  /** The `COMMAND_*` word of each command in the default strings table. */
  function Word(c: Command): string {
    match c
    case Help => "help"
    case List => "list"
    case Add => "add"
    case Remove => "remove"
    case Search => "search"
    case Limit => "limit"
    case Unlimit => "unlimit"
  }

  /** The command a word selects: none for a word outside the table, else the one whose word it is. */
  function CommandOf(word: string): (c: Option<Command>)
    ensures c.None? <==> word !in ["help", "list", "add", "remove", "search", "limit", "unlimit"]
    ensures c.Some? ==> Word(c.value) == word
  {
    if word == "help" then Some(Help)
    else if word == "list" then Some(List)
    else if word == "add" then Some(Add)
    else if word == "remove" then Some(Remove)
    else if word == "search" then Some(Search)
    else if word == "limit" then Some(Limit)
    else if word == "unlimit" then Some(Unlimit)
    else None
  }

  /**
    What the list/add/remove branch does: parse, then within `use` apply the
    mutator, reply with the sender's tags and store, which writes only after a
    mutation.
   */
  ghost predicate ManageOutcome(mut: Mutator, sender: string, params: seq<string>, st: Store,
                                out: Outcome, st': Store)
  {
    if ParseFor(mut, params).None? then out == Sent(MissingParameter) && st' == st
    else if Record(st, MappingKey).None? then out == Logged(StoredMappingIsList) && st' == st
    else
      var d := Record(st, MappingKey).value;
      var after := Apply(mut, LoadTags(d), LoadUsers(d), sender, ParseFor(mut, params).value);
      && out == Sent(TagList(sender, At(after.1, sender)))
      && st' == (if mut == Keep then st else st[MappingKey := Object(Dump(after.0))])
  }

  /** List never writes the store, and neither does a failed load or a missing parameter. */
  lemma ManageWrites(mut: Mutator, sender: string, params: seq<string>, st: Store, out: Outcome, st': Store)
    requires ManageOutcome(mut, sender, params, st, out, st')
    ensures st' != st ==> mut != Keep
    ensures out.Logged? ==> st' == st
  {
  }

  method ManageTags(mut: Mutator, sender: string, params: seq<string>, st: Store)
    returns (out: Outcome, st': Store)
    ensures ManageOutcome(mut, sender, params, st, out, st')
  {
    var parsed := ParseFor(mut, params);
    if parsed.None? {
      return Sent(MissingParameter), st;
    }
    var m := new TagMapping(MappingKey);
    var ok := m.Load(st);
    if !ok {
      return Logged(StoredMappingIsList), st;
    }
    var ts := Enumerate(parsed.value);
    assert Elems(ts) == parsed.value;
    match mut {
      case Keep =>
      case Adding => m.Add(sender, ts);
      case Removing => m.Remove(sender, ts);
    }
    var found := m.Find(None, Some(sender)).value;
    assert found == At(m.users, sender);
    out := Sent(TagList(sender, found));
    st' := m.Store(st);
  }

  /** What search replies, given the query, the loaded tags and the stored limit set. */
  ghost predicate SearchAnswer(out: Outcome, sender: string, query: set<string>, tags: Index,
                               limit: set<string>, near: Nearest)
  {
    if exists t :: t in query && t !in tags then
      if tags.Keys == {} then out == Logged(NoTagToCompare)
      else exists t :: t in query && t !in tags && out == Sent(UnknownTagReply(sender, t, near(tags.Keys, t)))
    else if limit != {} then out == Sent(SearchResult(sender, query, Matching(tags, query, limit)))
    else exists t :: t in query && out == Sent(SearchResult(sender, query, At(tags, Lower(t))))
  }

  /**
    `limit.intersection(*results)` with `results` built by `find(tag=...)` for
    each queried tag in iteration order.
   */
  method Intersect(m: TagMapping, limit: set<string>, order: seq<string>) returns (found: set<string>)
    requires m.Valid()
    ensures found == Matching(m.tags, Elems(order), limit)
  {
    found := limit;
    for i := 0 to |order|
      invariant found == Matching(m.tags, Elems(order[..i]), limit)
    {
      var users := m.Find(Some(order[i]), None).value;
      assert users == At(m.tags, Lower(order[i]));
      assert Elems(order[..i + 1]) == Elems(order[..i]) + {order[i]};
      found := found * users;
    }
    assert order[..|order|] == order;
  }

  /**
    The reply of the search branch once the mapping is loaded. Membership is
    tested on the raw tag; the first unknown tag (in set iteration order) ends
    the search. With an empty limit set the result is
    `results[0].intersection(*results[:1])`, the first tag's users only.
   */
  method SearchReply(m: TagMapping, sender: string, query: set<string>, limit: set<string>, near: Nearest)
    returns (out: Outcome)
    requires m.Valid() && query != {}
    ensures SearchAnswer(out, sender, query, m.tags, limit, near)
  {
    var order := Enumerate(query);
    var i := FirstUnknown(m, order, false);
    if i < |order| {
      var tag := order[i];
      assert tag in query && tag !in m.tags;
      if m.tags.Keys == {} {
        return Logged(NoTagToCompare);
      }
      return Sent(UnknownTagReply(sender, tag, near(m.tags.Keys, tag)));
    }
    assert forall t :: t in query ==> t in m.tags by {
      forall t | t in query ensures t in m.tags {
        var j :| 0 <= j < |order| && order[j] == t;
      }
    }
    if limit != {} {
      var found := Intersect(m, limit, order);
      assert Elems(order) == query;
      return Sent(SearchResult(sender, query, found));
    }
    assert order[0] in query;
    var first := m.Find(Some(order[0]), None).value;
    assert first == At(m.tags, Lower(order[0]));
    assert first * first == first;
    out := Sent(SearchResult(sender, query, first * first));
  }

  /**
    Search tests membership on the raw tag: a capitalised query misses the
    lower-case key it would be stored under.
   */
  lemma RawCaseTagIsUnknown(out: Outcome, sender: string, tags: Index, limit: set<string>, near: Nearest)
    requires "foo" in tags && LowerKeys(tags)
    requires SearchAnswer(out, sender, {"Foo"}, tags, limit, near)
    ensures out == Sent(UnknownTagReply(sender, "Foo", near(tags.Keys, "Foo")))
  {
    assert Lower("Foo") == "foo";
    assert !IsLower("Foo");
  }

  /**
    Without a limit, searching two tags nobody carries together still lists
    the users of one of them.
   */
  lemma UnlimitedSearchIsNotIntersection(out: Outcome, sender: string, near: Nearest)
    requires SearchAnswer(out, sender, {"a", "b"}, map["a" := {"x"}, "b" := {"y"}], {}, near)
    ensures out == Sent(SearchResult(sender, {"a", "b"}, {"x"}))
         || out == Sent(SearchResult(sender, {"a", "b"}, {"y"}))
  {
    assert Lower("a") == "a" && Lower("b") == "b";
  }

  /** What the search branch does: parse, load, answer; search never writes the store. */
  ghost predicate SearchOutcome(sender: string, params: seq<string>, st: Store, near: Nearest,
                                out: Outcome, st': Store)
  {
    && st' == st
    && if ReadParameters(params).None? then out == Sent(MissingParameter)
       else if Record(st, MappingKey).None? then out == Logged(StoredMappingIsList)
       else SearchAnswer(out, sender, ReadParameters(params).value, LoadTags(Record(st, MappingKey).value),
                         LimitSet(st), near)
  }

  method SearchTags(sender: string, params: seq<string>, st: Store, near: Nearest)
    returns (out: Outcome, st': Store)
    ensures SearchOutcome(sender, params, st, near, out, st')
  {
    var parsed := ReadParameters(params);
    if parsed.None? {
      return Sent(MissingParameter), st;
    }
    var m := new TagMapping(MappingKey);
    var ok := m.Load(st);
    if !ok {
      return Logged(StoredMappingIsList), st;
    }
    ReadParametersNonEmpty(params);
    out := SearchReply(m, sender, parsed.value, LimitSet(st), near);
    st' := m.Store(st);
  }

  /** Every key of the store but `key` holds the same value in `st'` as in `st`. */
  ghost predicate OthersKept(st: Store, st': Store, key: string) {
    && (forall k :: k != key ==> (k in st' <==> k in st))
    && (forall k :: k in st && k != key ==> st'[k] == st[k])
  }

  /** `put(key, v)` leaves every other key of the store as it was. */
  lemma PutKeepsOthers(st: Store, key: string, v: Value)
    ensures OthersKept(st, st[key := v], key)
  {
    var st' := st[key := v];
    forall k | k != key ensures k in st' <==> k in st {
    }
    forall k | k in st && k != key ensures st'[k] == st[k] {
    }
  }

  /** The limit branch: the stored limit set grows by the given users, is replied and stored. */
  function LimitCommand(params: seq<string>, st: Store): (r: (Outcome, Store))
    ensures ReadParameters(params).None? ==> r == (Sent(MissingParameter), st)
    ensures ReadParameters(params).Some? ==>
      && LimitSet(r.1) == LimitSet(st) + ReadParameters(params).value
      && r.0 == Sent(Limited(LimitSet(r.1)))
      && OthersKept(st, r.1, LimitKey)
  {
    match ReadParameters(params)
    case None => (Sent(MissingParameter), st)
    case Some(users) =>
      ReadParametersNonEmpty(params);
      var limit := LimitSet(st) + users;
      var reply := if |limit| > 0 then Limited(limit) else Unlimited;
      var st' := st[LimitKey := Array(limit)];
      assert reply == Limited(limit) by {
        var u :| u in users;
        assert u in limit;
      }
      LimitSetAfterPut(st, limit);
      PutKeepsOthers(st, LimitKey, Array(limit));
      (Sent(reply), st')
  }

  /** The unlimit branch: the stored limit set is emptied. */
  function UnlimitCommand(st: Store): (r: (Outcome, Store))
    ensures LimitSet(r.1) == {}
    ensures r.0 == Sent(Unlimited)
    ensures OthersKept(st, r.1, LimitKey)
  {
    LimitSetAfterPut(st, {});
    PutKeepsOthers(st, LimitKey, Array({}));
    (Sent(Unlimited), st[LimitKey := Array({})])
  }

  /** After `unlimit`, `limit` sets the limit to exactly the users given. */
  lemma UnlimitThenLimit(params: seq<string>, st: Store)
    requires ReadParameters(params).Some?
    ensures LimitSet(LimitCommand(params, UnlimitCommand(st).1).1) == ReadParameters(params).value
  {
  }

  /**
    What `handle_message` does with a message: parse the body and run the
    branch of its command word; a missing parameter and an unknown command are
    replied to, any other error is only logged.
   */
  ghost predicate Handled(msg: Message, st: Store, near: Nearest, out: Outcome, st': Store)
  {
    var p := ParseMessage(msg.content);
    match CommandOf(p.command)
    case None => out == Sent(UnknownCommand(p.command)) && st' == st
    case Some(c) => Ran(c, Sender(msg), p.params, st, near, out, st')
  }

  /** What the branch of command `c` does with the sender and the parameters. */
  ghost predicate Ran(c: Command, sender: string, params: seq<string>, st: Store, near: Nearest,
                      out: Outcome, st': Store)
  {
    match c
    case Help => out == Sent(Usage) && st' == st
    case List => ManageOutcome(Keep, sender, params, st, out, st')
    case Add => ManageOutcome(Adding, sender, params, st, out, st')
    case Remove => ManageOutcome(Removing, sender, params, st, out, st')
    case Search => SearchOutcome(sender, params, st, near, out, st')
    case Limit => (out, st') == LimitCommand(params, st)
    case Unlimit => (out, st') == UnlimitCommand(st)
  }

  method HandleMessage(msg: Message, st: Store, near: Nearest) returns (out: Outcome, st': Store)
    ensures Handled(msg, st, near, out, st')
  {
    var p := ParseMessage(msg.content);
    var sender := Sender(msg);
    match CommandOf(p.command)
    case None =>
      out, st' := Sent(UnknownCommand(p.command)), st;
    case Some(Help) =>
      out, st' := Sent(Usage), st;
    case Some(List) =>
      out, st' := ManageTags(Keep, sender, p.params, st);
    case Some(Add) =>
      out, st' := ManageTags(Adding, sender, p.params, st);
    case Some(Remove) =>
      out, st' := ManageTags(Removing, sender, p.params, st);
    case Some(Search) =>
      out, st' := SearchTags(sender, p.params, st, near);
    case Some(Limit) =>
      var r := LimitCommand(p.params, st);
      out, st' := r.0, r.1;
    case Some(Unlimit) =>
      var r := UnlimitCommand(st);
      out, st' := r.0, r.1;
  }

  /** Each command's word selects that command: the table has no two commands with one word. */
  lemma WordSelects(c: Command)
    ensures CommandOf(Word(c)) == Some(c)
  {
  }

  /**
    Replies go to the full name when the message carries one: `list` answers
    with the tags recorded for that name, not for the e-mail address.
   */
  lemma ListRepliesForFullName(msg: Message, st: Store, near: Nearest, out: Outcome, st': Store)
    requires msg.fullName.Some? && ParseMessage(msg.content).command == "list"
    requires Record(st, MappingKey).Some?
    requires Handled(msg, st, near, out, st')
    ensures var who := msg.fullName.value;
      out == Sent(TagList(who, At(LoadUsers(Record(st, MappingKey).value), who)))
  {
  }

  /** Without a full name, `list` answers with the tags recorded for the e-mail address. */
  lemma ListRepliesForEmail(msg: Message, st: Store, near: Nearest, out: Outcome, st': Store)
    requires msg.fullName.None? && ParseMessage(msg.content).command == "list"
    requires Record(st, MappingKey).Some?
    requires Handled(msg, st, near, out, st')
    ensures out == Sent(TagList(msg.email, At(LoadUsers(Record(st, MappingKey).value), msg.email)))
  {
  }

  /** The list/add/remove branch replies with the missing-parameter message exactly when add or remove has no parameter. */
  lemma ManageMissing(mut: Mutator, sender: string, params: seq<string>, st: Store, out: Outcome, st': Store)
    requires |params| <= 1
    requires ManageOutcome(mut, sender, params, st, out, st')
    ensures out == Sent(MissingParameter) <==> mut != Keep && params == []
  {
  }

  /** Once its parameter is read, search replies with a result, an unknown tag, or a logged error. */
  lemma AnswerIsNotMissing(out: Outcome, sender: string, query: set<string>, tags: Index,
                           limit: set<string>, near: Nearest)
    requires SearchAnswer(out, sender, query, tags, limit, near)
    ensures out.Logged? || out.reply.SearchResult? || out.reply.SearchTypo? || out.reply.SearchUnknown?
  {
    if exists t :: t in query && t !in tags {
      if tags.Keys != {} {
        var t :| t in query && t !in tags && out == Sent(UnknownTagReply(sender, t, near(tags.Keys, t)));
      }
    } else if limit == {} {
      var t :| t in query && out == Sent(SearchResult(sender, query, At(tags, Lower(t))));
    }
  }

  /** The search branch replies with the missing-parameter message exactly when it has no parameter. */
  lemma SearchMissing(sender: string, params: seq<string>, st: Store, near: Nearest, out: Outcome, st': Store)
    requires |params| <= 1
    requires SearchOutcome(sender, params, st, near, out, st')
    ensures out == Sent(MissingParameter) <==> params == []
  {
    if ReadParameters(params).Some? && Record(st, MappingKey).Some? {
      AnswerIsNotMissing(out, sender, ReadParameters(params).value, LoadTags(Record(st, MappingKey).value),
                         LimitSet(st), near);
    }
  }

  /** Only the add, remove, limit and unlimit branches change the store, and a logged error never does. */
  lemma RanWrites(c: Command, sender: string, params: seq<string>, st: Store, near: Nearest,
                  out: Outcome, st': Store)
    requires Ran(c, sender, params, st, near, out, st')
    ensures st' != st ==> c in {Add, Remove, Limit, Unlimit}
    ensures out.Logged? ==> st' == st
  {
    match c
    case List => ManageWrites(Keep, sender, params, st, out, st');
    case Add => ManageWrites(Adding, sender, params, st, out, st');
    case Remove => ManageWrites(Removing, sender, params, st, out, st');
    case _ =>
  }

  /** A branch replies with the missing-parameter message exactly when it needs a parameter and has none. */
  lemma RanMissing(c: Command, sender: string, params: seq<string>, st: Store, near: Nearest,
                   out: Outcome, st': Store)
    requires |params| <= 1
    requires Ran(c, sender, params, st, near, out, st')
    ensures out == Sent(MissingParameter) <==> params == [] && c in {Add, Remove, Search, Limit}
  {
    match c
    case Help =>
    case List => ManageMissing(Keep, sender, params, st, out, st');
    case Add => ManageMissing(Adding, sender, params, st, out, st');
    case Remove => ManageMissing(Removing, sender, params, st, out, st');
    case Search => SearchMissing(sender, params, st, near, out, st');
    case Limit =>
    case Unlimit =>
  }

  /** Only add, remove, limit and unlimit change the store, and a logged error never does. */
  lemma OnlyMutatorsWrite(msg: Message, st: Store, near: Nearest, out: Outcome, st': Store)
    requires Handled(msg, st, near, out, st')
    ensures st' != st ==> ParseMessage(msg.content).command in {"add", "remove", "limit", "unlimit"}
    ensures out.Logged? ==> st' == st
  {
    var p := ParseMessage(msg.content);
    if CommandOf(p.command).Some? {
      RanWrites(CommandOf(p.command).value, Sender(msg), p.params, st, near, out, st');
    }
  }

  /**
    The missing-parameter reply is sent exactly when add, remove, search or
    limit comes without a parameter.
   */
  lemma MissingParameterExactly(msg: Message, st: Store, near: Nearest, out: Outcome, st': Store)
    requires Handled(msg, st, near, out, st')
    ensures var p := ParseMessage(msg.content);
      out == Sent(MissingParameter) <==>
        p.params == [] && p.command in {"add", "remove", "search", "limit"}
  {
    var p := ParseMessage(msg.content);
    if CommandOf(p.command).Some? {
      RanMissing(CommandOf(p.command).value, Sender(msg), p.params, st, near, out, st');
    }
  }
}
