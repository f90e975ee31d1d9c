/**
  tagger-bot.py: the same bot with its commands in a table of handlers, a
  `TagMapping` whose `find` returns sorted lists, search on lower-cased tags,
  and a `command_limit` whose stray `self` parameter shifts every argument of
  the call the dispatcher makes.
 */
module TaggerBotTable {

  import opened Wrappers
  import opened Text
  import opened Order
  import opened Storage
  import opened TagIndex
  import opened Mapping
  import opened Commands
  import TaggerBot

  datatype Handler = HelpHandler | ManageHandler(mutator: Mutator) | SearchHandler | LimitHandler

  /** The `Command` named tuple: name, syntax, help line and handler. */
  datatype CommandEntry = CommandEntry(command: string, syntax: string, help: string, handler: Handler)

  /** `cls.commands`, in the order `build_commands` lists them. */
  function CommandTable(): seq<CommandEntry> {
    [ CommandEntry("help", "", "To show all commands the bot supports.", HelpHandler),
      CommandEntry("list", "", "Show all tags currently applied to the user.", ManageHandler(Keep)),
      CommandEntry("add", "<tag>, <tag>, ...", "To add personal tag(s).", ManageHandler(Adding)),
      CommandEntry("remove", "<tag>, <tag>, ...", "To remove personal tag(s).", ManageHandler(Removing)),
      CommandEntry("search", "<tag>, <tag>, ...", "To search for somebody with <tag>.", SearchHandler),
      CommandEntry("limit", "<user>, <user>, ...", "Limit search to this group of users.", LimitHandler),
      CommandEntry("unlimit", "", "Remove all search limits.", LimitHandler) ]
  }

  /** `{cmd.command: cmd.handler for cmd in table}` */
  function Handlers(table: seq<CommandEntry>): map<string, Handler> {
    if table == [] then map[]
    else
      var last := table[|table| - 1];
      Handlers(table[..|table| - 1])[last.command := last.handler]
  }

  /** The dictionary's keys are exactly the names listed in the table. */
  lemma {:induction false} HandlersKeys(table: seq<CommandEntry>)
    ensures forall name :: name in Handlers(table) <==> exists i :: 0 <= i < |table| && table[i].command == name
  {
    if table != [] {
      var n := |table| - 1;
      var front := table[..n];
      HandlersKeys(front);
      assert Handlers(table) == Handlers(front)[table[n].command := table[n].handler];
      forall name | name in Handlers(table) ensures exists i :: 0 <= i < |table| && table[i].command == name {
        if name != table[n].command {
          assert name in Handlers(front);
          var i :| 0 <= i < n && front[i].command == name;
          assert table[i].command == name;
        }
      }
      forall name | exists i :: 0 <= i < |table| && table[i].command == name ensures name in Handlers(table) {
        var i :| 0 <= i < |table| && table[i].command == name;
        if i < n {
          assert front[i].command == name;
        }
      }
    }
  }

  /** A name is bound to the handler of its last entry: a later entry replaces an earlier one. */
  lemma {:induction false} HandlersLastWins(table: seq<CommandEntry>, i: nat)
    requires i < |table|
    requires forall j :: i < j < |table| ==> table[j].command != table[i].command
    ensures table[i].command in Handlers(table) && Handlers(table)[table[i].command] == table[i].handler
  {
    var n := |table| - 1;
    if i < n {
      var front := table[..n];
      assert front[i] == table[i];
      forall j | i < j < |front| ensures front[j].command != front[i].command {
        assert front[j] == table[j];
      }
      HandlersLastWins(front, i);
    }
  }

  /** The dictionary `build_commands` returns. */
  function BuildCommands(): map<string, Handler> {
    Handlers(CommandTable())
  }

  /** Appending an entry to the table binds its name to its handler. */
  lemma HandlersSnoc(table: seq<CommandEntry>, e: CommandEntry)
    ensures Handlers(table + [e]) == Handlers(table)[e.command := e.handler]
  {
    assert (table + [e])[..|table|] == table;
  }

  /** The dispatcher knows exactly the seven command words, each with its handler. */
  lemma BuildCommandsExactly()
    ensures BuildCommands() == map[
      "help" := HelpHandler, "list" := ManageHandler(Keep), "add" := ManageHandler(Adding),
      "remove" := ManageHandler(Removing), "search" := SearchHandler,
      "limit" := LimitHandler, "unlimit" := LimitHandler]
  {
    var t := CommandTable();
    assert t[..0] == [];
    assert t[..1] == t[..0] + [t[0]];
    HandlersSnoc(t[..0], t[0]);
    assert t[..2] == t[..1] + [t[1]];
    HandlersSnoc(t[..1], t[1]);
    assert t[..3] == t[..2] + [t[2]];
    HandlersSnoc(t[..2], t[2]);
    assert t[..4] == t[..3] + [t[3]];
    HandlersSnoc(t[..3], t[3]);
    assert t[..5] == t[..4] + [t[4]];
    HandlersSnoc(t[..4], t[4]);
    assert t[..6] == t[..5] + [t[5]];
    HandlersSnoc(t[..5], t[5]);
    assert t[..7] == t[..6] + [t[6]];
    HandlersSnoc(t[..6], t[6]);
    assert t[..7] == t;
  }

  /** The words that reach each handler. */
  lemma HandlerNames(name: string)
    requires name in BuildCommands()
    ensures BuildCommands()[name] == ManageHandler(Adding) <==> name == "add"
    ensures BuildCommands()[name] == ManageHandler(Removing) <==> name == "remove"
    ensures BuildCommands()[name] == SearchHandler <==> name == "search"
    ensures BuildCommands()[name] == LimitHandler <==> name == "limit" || name == "unlimit"
  {
    BuildCommandsExactly();
  }

  const Intro: string := "This plugin allows users to store and query the tag-set of other users."

  /** One line of the help text. */
  function HelpLine(botName: string, e: CommandEntry): string {
    "- @" + botName + " " + e.command + ": " + e.syntax + "  -> " + e.help
  }

  function HelpLines(botName: string, table: seq<CommandEntry>): seq<string> {
    seq(|table|, i requires 0 <= i < |table| => HelpLine(botName, table[i]))
  }

  /** `help_text`: the (translated) introduction, a blank line, then one line per command. */
  function HelpText(intro: string, botName: string, table: seq<CommandEntry>): string {
    intro + "\n\n" + Join(HelpLines(botName, table), '\n')
  }

  /** No command's help line breaks across lines. */
  lemma HelpLinesUnbroken(botName: string, table: seq<CommandEntry>)
    requires '\n' !in botName
    requires forall e :: e in table ==> '\n' !in e.command && '\n' !in e.syntax && '\n' !in e.help
    ensures forall l :: l in HelpLines(botName, table) ==> '\n' !in l
  {
    var lines := HelpLines(botName, table);
    forall l | l in lines ensures '\n' !in l {
      var i :| 0 <= i < |lines| && lines[i] == l;
      assert table[i] in table;
    }
  }

  /**
    Read back line by line, the help text is the introduction, a blank line
    and each command's line in table order.
   */
  lemma HelpTextLines(intro: string, botName: string, table: seq<CommandEntry>)
    requires |table| >= 1
    requires '\n' !in intro && '\n' !in botName
    requires forall e :: e in table ==> '\n' !in e.command && '\n' !in e.syntax && '\n' !in e.help
    ensures Split(HelpText(intro, botName, table), '\n') == [intro, ""] + HelpLines(botName, table)
  {
    HelpLinesUnbroken(botName, table);
    JoinSplit(HelpLines(botName, table), '\n');
    SplitHeaded(intro, Join(HelpLines(botName, table), '\n'), '\n');
  }

  const DefaultBotName: string := "mention-bot"

  /** The reply `command_help` builds. */
  function HelpReply(): Reply {
    Manual(HelpText(Intro, DefaultBotName, CommandTable()))
  }

  /** The tag list of `Command_Manage` as an unordered set, to compare with taggerbot.py. */
  function Unsorted(out: Outcome): Outcome {
    if out.Sent? && out.reply.SortedTagList? then
      Sent(TagList(out.reply.sender, set x | x in out.reply.sortedTags))
    else out
  }

  /**
    What `Command_Manage.__call__` does: exactly what the list/add/remove
    branch of taggerbot.py does, with the sender's tags listed in ascending order.
   */
  ghost predicate ManageOutcome(mut: Mutator, sender: string, params: seq<string>, st: Store,
                                out: Outcome, st': Store)
  {
    && TaggerBot.ManageOutcome(mut, sender, params, st, Unsorted(out), st')
    && (out.Sent? && out.reply != MissingParameter ==>
          out.reply.SortedTagList? && Increasing(out.reply.sortedTags))
  }

  method ManageCommand(mut: Mutator, sender: string, params: seq<string>, st: Store)
    returns (out: Outcome, st': Store)
    ensures ManageOutcome(mut, sender, params, st, out, st')
  {
    var parsed := ParseFor(mut, params);
    if parsed.None? {
      return Sent(MissingParameter), st;
    }
    var m := new TagMapping(MappingKey);
    var ok := m.Load(st);
    if !ok {
      return Logged(StoredMappingIsList), st;
    }
    ghost var d := Record(st, MappingKey).value;
    var ts := Enumerate(parsed.value);
    assert Elems(ts) == parsed.value;
    match mut {
      case Keep =>
      case Adding => m.Add(sender, ts);
      case Removing => m.Remove(sender, ts);
    }
    var found := m.FindSorted(None, Some(sender));
    out := Sent(SortedTagList(sender, found.value));
    st' := m.Store(st);
    ManageDone(mut, sender, params, st, d, found.value, out, st');
  }

  /** The list/add/remove outcome, from the loaded record, the sorted listing and the store written. */
  lemma ManageDone(mut: Mutator, sender: string, params: seq<string>, st: Store,
                   d: map<string, set<string>>, listed: seq<string>, out: Outcome, st': Store)
    requires ParseFor(mut, params).Some? && Record(st, MappingKey) == Some(d)
    requires var after := Apply(mut, LoadTags(d), LoadUsers(d), sender, ParseFor(mut, params).value);
      && out == Sent(SortedTagList(sender, listed))
      && Increasing(listed) && (forall x :: x in listed <==> x in At(after.1, sender))
      && st' == (if mut == Keep then st else st[MappingKey := Object(Dump(after.0))])
    ensures ManageOutcome(mut, sender, params, st, out, st')
  {
    var after := Apply(mut, LoadTags(d), LoadUsers(d), sender, ParseFor(mut, params).value);
    assert (set x | x in listed) == At(after.1, sender);
  }

  /**
    What `command_search` replies, given the query, the loaded tags and the
    stored limit set. Membership is tested on the lower-cased tag. The two
    unknown-tag messages are swapped in the source: a close match gets the
    plain "unknown" text, and the other case formats the typo text without
    its third argument, which raises.
   */
  ghost predicate SearchAnswer(out: Outcome, sender: string, query: set<string>, tags: Index,
                               limit: set<string>, near: Nearest)
  {
    if exists t :: t in query && Lower(t) !in tags then
      if tags.Keys == {} then out == Logged(NoTagToCompare)
      else exists t :: (t in query && Lower(t) !in tags &&
        out == (if near(tags.Keys, Lower(t)).close then Sent(SearchUnknown(sender, t))
                else Logged(FormatArgumentMissing)))
    else if limit != {} then out == Sent(SearchResult(sender, query, Matching(tags, query, limit)))
    else out == Logged(ListHasNoIntersection)
  }

  /** Once its parameter is read, search replies with a result, an unknown tag, or a logged error. */
  lemma AnswerIsNotMissing(out: Outcome, sender: string, query: set<string>, tags: Index,
                           limit: set<string>, near: Nearest)
    requires SearchAnswer(out, sender, query, tags, limit, near)
    ensures out.Logged? || out.reply.SearchResult? || out.reply.SearchUnknown?
  {
    if exists t :: t in query && Lower(t) !in tags {
      if tags.Keys != {} {
        var t :| t in query && Lower(t) !in tags &&
          out == (if near(tags.Keys, Lower(t)).close then Sent(SearchUnknown(sender, t))
                  else Logged(FormatArgumentMissing));
      }
    }
  }

  method SearchReply(m: TagMapping, sender: string, query: set<string>, limit: set<string>, near: Nearest)
    returns (out: Outcome)
    requires m.Valid()
    ensures SearchAnswer(out, sender, query, m.tags, limit, near)
  {
    var order := Enumerate(query);
    var i := FirstUnknown(m, order, true);
    if i < |order| {
      var tag := order[i];
      assert tag in query && Lower(tag) !in m.tags;
      if m.tags.Keys == {} {
        return Logged(NoTagToCompare);
      }
      if near(m.tags.Keys, Lower(tag)).close {
        return Sent(SearchUnknown(sender, tag));
      }
      return Logged(FormatArgumentMissing);
    }
    assert forall t :: t in query ==> Lower(t) in m.tags by {
      forall t | t in query ensures Lower(t) in m.tags {
        var j :| 0 <= j < |order| && order[j] == t;
      }
    }
    if limit == {} {
      // `results[0]` is a sorted list, which has no `intersection`.
      return Logged(ListHasNoIntersection);
    }
    // Intersecting with sorted lists keeps the same elements as with sets.
    var found := TaggerBot.Intersect(m, limit, order);
    assert Elems(order) == query;
    out := Sent(SearchResult(sender, query, found));
  }

  /** What `command_search` does: parse, load, answer; it never writes the store. */
  ghost predicate SearchOutcome(sender: string, params: seq<string>, st: Store, near: Nearest,
                                out: Outcome, st': Store)
  {
    && st' == st
    && if ReadParameters(params).None? then out == Sent(MissingParameter)
       else if Record(st, MappingKey).None? then out == Logged(StoredMappingIsList)
       else SearchAnswer(out, sender, ReadParameters(params).value, LoadTags(Record(st, MappingKey).value),
                         LimitSet(st), near)
  }

  method SearchCommand(sender: string, params: seq<string>, st: Store, near: Nearest)
    returns (out: Outcome, st': Store)
    ensures SearchOutcome(sender, params, st, near, out, st')
  {
    var parsed := ReadParameters(params);
    if parsed.None? {
      return Sent(MissingParameter), st;
    }
    var m := new TagMapping(MappingKey);
    var ok := m.Load(st);
    if !ok {
      return Logged(StoredMappingIsList), st;
    }
    out := SearchReply(m, sender, parsed.value, LimitSet(st), near);
    st' := m.Store(st);
  }

  /** An argument of `command_limit`: the command word, or the parameter list bound in its place. */
  datatype Arg = Word(word: string) | Words(items: seq<string>)

  /**
    The body of `command_limit` for whatever lands in its `command` parameter.
    With anything but the two words there, neither branch runs; the call then
    fails at `storage.put("limit", list(limit))` (in the shifted call `storage`
    is the bot handler, and `limit` was never bound), before anything is written.
   */
  function LimitBody(command: Arg, params: seq<string>, st: Store): (r: (Outcome, Store))
    ensures command != Word("limit") && command != Word("unlimit") ==> r == (Logged(LimitCallMisbound), st)
    ensures command == Word("unlimit") ==> r.0 == Sent(Unlimited) && LimitSet(r.1) == {}
  {
    if command == Word("limit") then
      match ReadParameters(params)
      case None => (Sent(MissingParameter), st)
      case Some(users) =>
        var limit := LimitSet(st) + users;
        var st' := st[LimitKey := Array(limit)];
        (Sent(if |limit| > 0 then Limited(limit) else Unlimited), st')
    else if command == Word("unlimit") then
      LimitSetAfterPut(st, {});
      (Sent(Unlimited), st[LimitKey := Array({})])
    else
      (Logged(LimitCallMisbound), st)
  }

  /**
    Bound as intended, the body would do what the limit and unlimit branches
    of taggerbot.py do.
   */
  lemma LimitBodyAsIntended(params: seq<string>, st: Store)
    ensures LimitBody(Word("limit"), params, st) == TaggerBot.LimitCommand(params, st)
    ensures LimitBody(Word("unlimit"), params, st) == TaggerBot.UnlimitCommand(st)
  {
    if ReadParameters(params).Some? {
      ReadParametersNonEmpty(params);
    }
  }

  /**
    What `handle_message` does: look the command word up in the table (an
    unknown word raises `KeyError`), call the handler as
    `handler(sender, command, params, storage, bot_handler)`, reply with its
    result; a missing parameter and a `KeyError` are replied to, anything else
    is only logged. `command_limit` receives the parameter list as `command`.
   */
  ghost predicate Handled(msg: Message, st: Store, near: Nearest, out: Outcome, st': Store)
  {
    var p := ParseMessage(msg.content);
    var commands := BuildCommands();
    if p.command !in commands then out == Sent(UnknownCommand(p.command)) && st' == st
    else Dispatched(commands[p.command], Sender(msg), p.params, st, near, out, st')
  }

  /** What calling handler `h` with the message's sender and parameters does. */
  ghost predicate Dispatched(h: Handler, sender: string, params: seq<string>, st: Store, near: Nearest,
                             out: Outcome, st': Store)
  {
    match h
    case HelpHandler => out == Sent(HelpReply()) && st' == st
    case ManageHandler(mut) => ManageOutcome(mut, sender, params, st, out, st')
    case SearchHandler => SearchOutcome(sender, params, st, near, out, st')
    case LimitHandler => (out, st') == LimitBody(Words(params), params, st)
  }

  /** Only the add and remove handlers write the store, and a logged error never does. */
  lemma DispatchedWrites(h: Handler, sender: string, params: seq<string>, st: Store, near: Nearest,
                         out: Outcome, st': Store)
    requires Dispatched(h, sender, params, st, near, out, st')
    ensures st' != st ==> h in {ManageHandler(Adding), ManageHandler(Removing)}
    ensures out.Logged? ==> st' == st
  {
    if h.ManageHandler? {
      TaggerBot.ManageWrites(h.mutator, sender, params, st, Unsorted(out), st');
    } else if h == LimitHandler {
      DispatchedLimit(sender, params, st, near, out, st');
    }
  }

  /** `command_search` replies with the missing-parameter message exactly when it has no remainder. */
  lemma SearchMissing(sender: string, params: seq<string>, st: Store, near: Nearest, out: Outcome, st': Store)
    requires |params| <= 1
    requires SearchOutcome(sender, params, st, near, out, st')
    ensures out == Sent(MissingParameter) <==> params == []
  {
    if ReadParameters(params).Some? && Record(st, MappingKey).Some? {
      AnswerIsNotMissing(out, sender, ReadParameters(params).value, LoadTags(Record(st, MappingKey).value),
                         LimitSet(st), near);
    }
  }

  /** The handlers that reply with the missing-parameter message do so exactly when there is no parameter. */
  lemma DispatchedMissing(h: Handler, sender: string, params: seq<string>, st: Store, near: Nearest,
                          out: Outcome, st': Store)
    requires |params| <= 1
    requires Dispatched(h, sender, params, st, near, out, st')
    ensures out == Sent(MissingParameter) <==>
      params == [] && h in {ManageHandler(Adding), ManageHandler(Removing), SearchHandler}
  {
    match h
    case HelpHandler =>
    case ManageHandler(mut) =>
      TaggerBot.ManageMissing(mut, sender, params, st, Unsorted(out), st');
    case SearchHandler =>
      SearchMissing(sender, params, st, near, out, st');
    case LimitHandler =>
      DispatchedLimit(sender, params, st, near, out, st');
  }

  method HandleMessage(msg: Message, st: Store, near: Nearest) returns (out: Outcome, st': Store)
    ensures Handled(msg, st, near, out, st')
  {
    var p := ParseMessage(msg.content);
    var sender := Sender(msg);
    var commands := BuildCommands();
    if p.command !in commands {
      return Sent(UnknownCommand(p.command)), st;
    }
    match commands[p.command]
    case HelpHandler =>
      out, st' := Sent(HelpReply()), st;
    case ManageHandler(mut) =>
      out, st' := ManageCommand(mut, sender, p.params, st);
    case SearchHandler =>
      out, st' := SearchCommand(sender, p.params, st, near);
    case LimitHandler =>
      var r := LimitBody(Words(p.params), p.params, st);
      out, st' := r.0, r.1;
  }

  /** Both `limit` and `unlimit` are dispatched to `command_limit`. */
  lemma LimitWords()
    ensures "limit" in BuildCommands() && BuildCommands()["limit"] == LimitHandler
    ensures "unlimit" in BuildCommands() && BuildCommands()["unlimit"] == LimitHandler
  {
    BuildCommandsExactly();
  }

  /** `command_limit` called with the parameter list in place of the command word is logged and writes nothing. */
  lemma DispatchedLimit(sender: string, params: seq<string>, st: Store, near: Nearest, out: Outcome, st': Store)
    requires Dispatched(LimitHandler, sender, params, st, near, out, st')
    ensures out == Logged(LimitCallMisbound) && st' == st
  {
  }

  /** `limit` and `unlimit` never take effect: the call is always logged and the store is untouched. */
  lemma LimitNeverTakesEffect(msg: Message, st: Store, near: Nearest, out: Outcome, st': Store)
    requires Handled(msg, st, near, out, st')
    requires ParseMessage(msg.content).command in {"limit", "unlimit"}
    ensures out == Logged(LimitCallMisbound) && st' == st
  {
    var p := ParseMessage(msg.content);
    LimitWords();
    assert BuildCommands()[p.command] == LimitHandler;
    DispatchedLimit(Sender(msg), p.params, st, near, out, st');
  }

  /** Only add and remove change the store, and a logged error never does. */
  lemma OnlyAddRemoveWrite(msg: Message, st: Store, near: Nearest, out: Outcome, st': Store)
    requires Handled(msg, st, near, out, st')
    ensures st' != st ==> ParseMessage(msg.content).command in {"add", "remove"}
    ensures out.Logged? ==> st' == st
  {
    var p := ParseMessage(msg.content);
    if p.command in BuildCommands() {
      HandlerNames(p.command);
      DispatchedWrites(BuildCommands()[p.command], Sender(msg), p.params, st, near, out, st');
    }
  }

  /** The missing-parameter reply comes exactly when add, remove or search has no parameter. */
  lemma MissingParameterExactly(msg: Message, st: Store, near: Nearest, out: Outcome, st': Store)
    requires Handled(msg, st, near, out, st')
    ensures var p := ParseMessage(msg.content);
      out == Sent(MissingParameter) <==> p.params == [] && p.command in {"add", "remove", "search"}
  {
    var p := ParseMessage(msg.content);
    BuildCommandsExactly();
    if p.command in BuildCommands() {
      HandlerNames(p.command);
      DispatchedMissing(BuildCommands()[p.command], Sender(msg), p.params, st, near, out, st');
    }
  }
}
