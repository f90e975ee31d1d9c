# Tagger bot: tag index and command logic

A Zulip chat bot that lets users tag themselves ("python", "rust", ...) and
search for everybody carrying a set of tags. The repository holds two
near-identical versions of the bot, `taggerbot.py` and `tagger-bot.py`. This
project models the part of both that decides what happens:

* `TagMapping`, a two-way index between tags and users:
  * two maps from string to set, `tags` and `users`;
  * a `dirty` flag;
  * `add` / `remove` keep both maps consistent and lower-case the tags;
  * `dump` / `load` / `store` persist the non-empty tag entries under one key
    of a key-value store, writing only when `dirty` is set.
* The message split. A message is split into a command word and an optional
  remainder, on the first `:` when there is one and otherwise on the first space.
* `read_parameters`, which turns the remainder into a set of stripped,
  comma-separated items.
* The commands:
  * `help`, `list`, `add` and `remove`;
  * `search`, which stops at the first unknown tag, and with a non-empty limit
    set intersects that set with every tag's users;
  * `limit` and `unlimit`.
* The error handling:
  * a missing parameter and an unknown command get a reply;
  * every other exception is only logged.

Modules:

* `Wrappers`: `Option`.
* `Text`: Python's `str.lower` (ASCII), `str.strip`, `split` and `split(sep, 1)`.
* `Order`: Python's string order, `sorted`, and the iteration order of a set.
* `Storage`: the key-value store as a `map<string, Value>`. A value is a JSON
  object (tag → users) or a JSON list (modelled as a set).
* `TagIndex`:
  * functions saying what `add`, `remove`, `dump` and `load` compute on the
    two maps;
  * the invariant tying the maps together;
  * lemmas about both.
* `Mapping`: the class `TagMapping`, whose methods update its fields in place
  and are proved against `TagIndex`.
* `Commands`: what both handlers share, including:
  * the message, the split and `read_parameters`;
  * the replies, and the exceptions that are only logged;
  * the search membership loop.
* `TaggerBot`: `handle_message` of `taggerbot.py`.
* `TaggerBotTable`: `tagger-bot.py`, including:
  * the command table and its dictionary, and the help text;
  * `Command_Manage`, `command_search` and `command_limit`;
  * `handle_message`.

Invariant of a mapping: for every tag `t` and user `u`, `u` is in `tags[t]`
exactly when `t` is in `users[u]`, and every key of `tags` is lower case.
Python's `defaultdict(set)` is read through `At`, which gives the empty set
for a missing key.

The sender of a message (`Commands.Sender`) is its full name when it carries
one, else its e-mail address. `TaggerBot.ListRepliesForFullName` and
`TaggerBot.ListRepliesForEmail` show what that choice means for a reply: the
tags listed are the ones recorded under that name.

Two places where the code does not do what its design suggests are modelled
as written.

1. A search without a limit set returns only the users of one queried tag.
   * In `taggerbot.py` the expression is `results[0].intersection(*results[:1])`.
     `UnlimitedSearchIsNotIntersection` exhibits it.
   * In `tagger-bot.py` the same expression is applied to sorted lists, which
     have no `intersection`. The search is therefore logged and gets no reply.
2. In `tagger-bot.py`, `command_limit` declares a stray `self` parameter, so
   the dispatcher's call shifts every argument by one position.
   * The command word's place receives the parameter list, so neither branch
     matches.
   * The call then fails at `storage.put("limit", list(limit))`. In the shifted
     call `storage` is the bot handler, and `limit` was never bound. Either
     error is only logged, and nothing is written.
   * `limit` and `unlimit` are therefore always logged and never change the
     store (`LimitNeverTakesEffect`).
   * `LimitBodyAsIntended` shows that, bound as intended, the body would do
     what `taggerbot.py` does.

## Model

| member | source | states |
|---|---|---|
| Text.Lower | taggerbot.py:59-60 | `str.lower` keeps the length of the string |
| Text.LowerIsLower | taggerbot.py:40-42 | a lowered tag is its own lower-case form, so every key `load`/`add` write is lower case |
| Text.TrimStart | taggerbot.py:233 | the result is a suffix of the input, the dropped prefix is all white space, and the result does not start with white space |
| Text.TrimEnd | taggerbot.py:233 | the result is a prefix of the input, the dropped suffix is all white space, and the result does not end with white space |
| Text.StripShape | taggerbot.py:139-140 | `strip` leaves no white space at either end and introduces no character |
| Text.StripIdempotent | taggerbot.py:233-243 | stripping twice is stripping once, so the repeated `.strip()` of the body changes nothing |
| Text.IndexOf | taggerbot.py:240-243 | the position holds the separator and no earlier position does |
| Text.IndexOfFirst | taggerbot.py:240-243 | any position holding the separator is at or after the first one |
| Text.Split | taggerbot.py:140 | `split(",")` gives at least one piece and no piece contains the separator |
| Text.SplitJoin | taggerbot.py:140 | joining the pieces of a split with the separator restores the string |
| Text.JoinSplit | taggerbot.py:140 | splitting a join of separator-free pieces returns those pieces |
| Text.SplitOnce | taggerbot.py:240-243 | `split(sep, 1)` gives two pieces exactly when the separator occurs, the first piece has no separator, and joining them restores the string |
| Text.SplitCons | tagger-bot.py:317-326 | a string that begins with a separator-free line and a separator splits into that line followed by the pieces of the rest |
| Text.SplitHeaded | tagger-bot.py:317-326 | a header line and a blank line in front of a body split into the header, an empty piece and the pieces of the body |
| Order.BelowIrreflexive | tagger-bot.py:71-77 | no string sorts before itself |
| Order.BelowTransitive | tagger-bot.py:71-77 | Python's string order is transitive |
| Order.BelowTotal | tagger-bot.py:71-77 | of two distinct strings one sorts before the other |
| Order.LeastExists | tagger-bot.py:71-77 | every non-empty set of strings has a least element |
| Order.Sorted | tagger-bot.py:74-76 | `sorted(set)` is strictly ascending and has exactly the set's elements |
| Order.Enumerate | taggerbot.py:265-267 | iterating a set visits each element exactly once |
| Storage.RecordAfterPut | taggerbot.py:35-47 | the object `store` puts under a key is what `load` then gets back as a record |
| Storage.RecordAfterOtherPut | taggerbot.py:35-47 | a `put` under another key, such as the limit key, leaves the record under the mapping's key as it was |
| Storage.LimitSetAfterPut | taggerbot.py:313-323 | the users `limit` puts under the limit key read back as exactly that limit set |
| Storage.LimitSetAfterOtherPut | taggerbot.py:296-313 | a `put` under another key, such as the mapping's `store`, leaves the limit set as it was |
| TagIndex.AddKeepsConsistent | taggerbot.py:57-61 | `add` keeps `u in tags[t] <==> t in users[u]` |
| TagIndex.RemoveKeepsConsistent | taggerbot.py:63-67 | `remove` keeps `u in tags[t] <==> t in users[u]` |
| TagIndex.LowerAllIsLower | taggerbot.py:59-60 | every lowered tag is lower case |
| TagIndex.AddKeepsLowerKeys | taggerbot.py:57-67 | `add` and `remove` keep every tag key lower case |
| TagIndex.AddEffect | taggerbot.py:57-61 | after `add` each given tag (lowered) lists the user and the user lists it; other tags and users are unchanged |
| TagIndex.AddIdempotent | taggerbot.py:57-61 | adding the same tags twice is adding them once |
| TagIndex.RemoveIdempotent | taggerbot.py:63-67 | removing the same tags twice is removing them once |
| TagIndex.RemoveEffect | taggerbot.py:63-67 | after `remove` the pair is gone from both maps, but each tag key stays, possibly with an empty set |
| TagIndex.RemoveAbsentIsNoop | taggerbot.py:63-67 | removing a pair that is not recorded changes no tag's or user's set |
| TagIndex.Dump | taggerbot.py:31-32 | `dump` keeps exactly the tags that have users, each with its users, and keeps keys lower case |
| TagIndex.LoadConsistent | taggerbot.py:34-43 | whatever object is stored, `load` builds two consistent maps with lower-case tag keys |
| TagIndex.LoadMergesCase | taggerbot.py:39-42 | `load` merges the users of case variants of a tag under the lowered tag, in both maps |
| TagIndex.LoadLowerRecord | taggerbot.py:34-43 | loading an object whose keys are lower case reproduces it as `tags` |
| TagIndex.LoadDumpUsers | taggerbot.py:31-43 | loading a dump rebuilds exactly the non-empty user entries of the dumped mapping |
| TagIndex.DumpLoadRoundTrip | taggerbot.py:31-43 | `load(dump(M))` reproduces M's non-empty tag entries and non-empty user entries |
| Mapping.TagMapping.constructor | tagger-bot.py:27-31 | a new mapping is empty, clean and bound to its storage key |
| Mapping.TagMapping.Load | taggerbot.py:34-43 | `load` replaces both maps with the index of the stored object, fails on a stored list, clears `dirty` and establishes the invariant |
| Mapping.TagMapping.TagEach | taggerbot.py:41-42 | the inner loop of `load` adds the lowered tag to the set of each of its users |
| Mapping.TagMapping.Store | taggerbot.py:45-49 | `store` writes the dump under the mapping's key exactly when `dirty` and then clears it |
| Mapping.TagMapping.Add | taggerbot.py:57-61 | `add` updates both maps as `AddTags`/`AddUsers` say, keeps the invariant and sets `dirty` even with no tags |
| Mapping.TagMapping.Remove | taggerbot.py:63-67 | `remove` updates both maps as `RemoveTags`/`RemoveUsers` say, keeps the invariant and sets `dirty` |
| Mapping.TagMapping.Find | taggerbot.py:69-75 | `find` fails when given neither argument; by tag it gives the users listing the lowered tag, by user the tags listing the user |
| Mapping.TagMapping.Contains | taggerbot.py:77-78 | `tag in mapping` holds exactly when the raw tag is a key, and only a lower-case tag can be one |
| Mapping.TagMapping.FindSorted | tagger-bot.py:71-77 | `find` of `tagger-bot.py` gives the same elements as a strictly ascending list |
| Mapping.LoadThenStore | taggerbot.py:51-55 | a `use` scope whose body changes nothing never writes the store |
| Mapping.StoreTwice | taggerbot.py:45-49 | after `add`, `store` writes the dump of the updated tags once, and a second `store` writes nothing |
| Mapping.PersistRoundTrip | taggerbot.py:31-47 | for a consistent mapping, the object `store` puts is read back by `load` as the non-empty entries of both indices |
| Mapping.StoreThenLoad | taggerbot.py:31-49 | `store` after a change, then `load` into a new mapping under the same key, gives the old mapping's non-empty entries; without a change nothing is written |
| Commands.ParseMessage | taggerbot.py:240-243 | the command is the stripped body before the first `:` if it has one, else before the first space; at most one remainder, and command, separator and remainder rebuild the body |
| Commands.ReadParameters | taggerbot.py:137-140 | the missing-parameter error is raised exactly when there is not exactly one remainder |
| Commands.StripAllStripped | taggerbot.py:140 | mapping `strip` over pieces that are already stripped keeps exactly those pieces |
| Commands.ReadParametersShape | taggerbot.py:137-140 | the items are a non-empty set of stripped strings without commas |
| Commands.ReadParametersNonEmpty | taggerbot.py:137-140 | a single remainder always reads as at least one item, so the limit reply and the search loop always have a tag or user to work on |
| Commands.ReadParametersRoundTrip | taggerbot.py:137-140 | reading back a comma-join of stripped items gives exactly those items |
| Commands.ReadEmptyRemainder | taggerbot.py:137-140 | an empty remainder reads as the set holding the empty string |
| Commands.ParseFor | taggerbot.py:256-266 | the list command never fails and parses to no tags; add and remove fail exactly when there is not one remainder, and otherwise always get at least one tag |
| Commands.ApplyKeepsInvariant | taggerbot.py:264-267 | each of the list/add/remove mutators keeps the mapping's invariant |
| Commands.FirstUnknown | taggerbot.py:277-278 | the search loop, testing `tag in tags` through `__contains__`, stops at the first queried tag that is not a key, after all earlier ones were keys |
| TaggerBot.CommandOf | taggerbot.py:249-330 | exactly the seven default command words are recognised, and each selects the command it names |
| TaggerBot.WordSelects | taggerbot.py:171-177 | every command is reached by its own word, so no two commands share a word |
| TaggerBot.ManageTags | taggerbot.py:251-273 | a missing parameter before any load, a stored list logged, else the sender's tags after the mutation and a write only after add or remove |
| TaggerBot.ManageWrites | taggerbot.py:251-273 | list never writes the store, and a logged error never does |
| TaggerBot.ManageMissing | taggerbot.py:256-266 | list/add/remove reply with the missing-parameter message exactly when add or remove has no remainder |
| TaggerBot.ListRepliesForFullName | taggerbot.py:244-273 | when the message carries a full name, `list` replies to that name with the tags the stored record gives that name |
| TaggerBot.ListRepliesForEmail | taggerbot.py:244-273 | without a full name, `list` replies to the e-mail address with the tags the stored record gives that address |
| TaggerBot.Intersect | taggerbot.py:295-298 | `limit.intersection(*results)` holds the limit users carrying every queried tag |
| TaggerBot.SearchReply | taggerbot.py:276-300 | the first raw tag that is not a key is reported (a failure when no tag is known); else the limit-and-all-tags users, or with no limit one queried tag's users |
| TaggerBot.SearchTags | taggerbot.py:274-310 | search never writes the store; missing parameter, stored list, or the reply `SearchReply` describes |
| TaggerBot.AnswerIsNotMissing | taggerbot.py:276-310 | once the parameter is read, search replies with a result or an unknown-tag message, or logs an error |
| TaggerBot.SearchMissing | taggerbot.py:275 | search replies with the missing-parameter message exactly when it has no remainder |
| TaggerBot.RawCaseTagIsUnknown | taggerbot.py:277-278 | `Foo` is reported unknown although `foo` is a key, because membership uses the raw tag |
| TaggerBot.UnlimitedSearchIsNotIntersection | taggerbot.py:299-300 | without a limit, two tags nobody carries together still list the users of one of them |
| TaggerBot.LimitCommand | taggerbot.py:311-323 | `limit` stores the old limit set united with the given users, replies with it and touches no other key |
| TaggerBot.UnlimitCommand | taggerbot.py:324-328 | `unlimit` stores an empty limit set, replies "unlimited" and touches no other key |
| TaggerBot.UnlimitThenLimit | taggerbot.py:311-328 | after `unlimit`, `limit` sets the limit set to exactly the given users |
| TaggerBot.PutKeepsOthers | taggerbot.py:323-325 | `storage.put(key, v)` leaves every other key of the store as it was |
| TaggerBot.HandleMessage | taggerbot.py:231-336 | each command word runs its branch; an unknown word gets the error reply and leaves the store alone |
| TaggerBot.RanWrites | taggerbot.py:249-328 | of the seven branches only add, remove, limit and unlimit can change the store, and a logged error never does |
| TaggerBot.RanMissing | taggerbot.py:249-333 | a branch replies with the missing-parameter message exactly when it is add, remove, search or limit and has no remainder |
| TaggerBot.OnlyMutatorsWrite | taggerbot.py:231-336 | only add, remove, limit and unlimit change the store, and a logged error never does |
| TaggerBot.MissingParameterExactly | taggerbot.py:331-332 | the missing-parameter reply comes exactly when add, remove, search or limit has no remainder |
| TaggerBotTable.HandlersKeys | tagger-bot.py:314 | the dictionary's keys are exactly the names listed in the table |
| TaggerBotTable.HandlersLastWins | tagger-bot.py:314 | a name is bound to the handler of its last entry in the table |
| TaggerBotTable.BuildCommandsExactly | tagger-bot.py:267-314 | the dictionary maps exactly the seven command words to their handlers |
| TaggerBotTable.HandlerNames | tagger-bot.py:267-314 | add, remove and search each come from one word, and both limit and unlimit reach `command_limit` |
| TaggerBotTable.HelpTextLines | tagger-bot.py:317-326 | the help text reads back as the introduction, a blank line and one line per command, in table order |
| TaggerBotTable.HelpLinesUnbroken | tagger-bot.py:317-326 | no command line of the help text contains a line break when the table's strings contain none |
| TaggerBotTable.ManageCommand | tagger-bot.py:164-183 | `Command_Manage` does what the list/add/remove branch of `taggerbot.py` does, with the sender's tags in ascending order |
| TaggerBotTable.SearchReply | tagger-bot.py:193-217 | the first tag whose lowered form is not a key gets the plain unknown reply when close, else a logged format error; else the limit-and-all-tags users, or a logged error without a limit |
| TaggerBotTable.AnswerIsNotMissing | tagger-bot.py:193-222 | once the parameter is read, search replies with a result or the unknown-tag message, or logs an error |
| TaggerBotTable.SearchMissing | tagger-bot.py:186-193 | `command_search` replies with the missing-parameter message exactly when it has no remainder |
| TaggerBotTable.SearchCommand | tagger-bot.py:186-222 | search never writes the store; missing parameter, stored list, or the reply `SearchReply` describes |
| TaggerBotTable.LimitBody | tagger-bot.py:225-243 | with anything but the two command words in its place, the failing `storage.put` call is logged and the store is left alone; `unlimit` empties the limit set |
| TaggerBotTable.LimitBodyAsIntended | tagger-bot.py:233-243 | bound as intended, the body does what the limit and unlimit branches of `taggerbot.py` do |
| TaggerBotTable.DispatchedWrites | tagger-bot.py:164-243 | only the add and remove handlers can change the store, and a logged error never does |
| TaggerBotTable.DispatchedMissing | tagger-bot.py:139-142 | a handler replies with the missing-parameter message exactly when it is add, remove or search and there is no remainder |
| TaggerBotTable.HandleMessage | tagger-bot.py:347-378 | the word is looked up in the dictionary (unknown: error reply, store unchanged) and its handler runs with shifted arguments for `command_limit` |
| TaggerBotTable.LimitWords | tagger-bot.py:300-314 | both `limit` and `unlimit` are bound to `command_limit` in the dictionary |
| TaggerBotTable.DispatchedLimit | tagger-bot.py:225-243 | `command_limit`, handed the parameter list where it expects the command word, matches neither word: it is logged and writes nothing |
| TaggerBotTable.LimitNeverTakesEffect | tagger-bot.py:366 | `limit` and `unlimit` are always logged and never change the store |
| TaggerBotTable.OnlyAddRemoveWrite | tagger-bot.py:347-378 | only add and remove change the store, and a logged error never does |
| TaggerBotTable.MissingParameterExactly | tagger-bot.py:369-372 | the missing-parameter reply comes exactly when add, remove or search has no remainder |

## Left out

- `nearest` (`difflib.SequenceMatcher.ratio` and the 0.75 threshold) is a parameter `near` giving the nearest tag and whether it is close. `max` over no tags is the failure `NoTagToCompare`.
- Text.Lower: only ASCII letters are lowered; Python's full Unicode case mapping is not modelled.
- The storage back-ends (`ZulipStorage`, `JsonFileStorage`), file and JSON I/O, and failures of `put` are not modelled. Storage is a map with get-with-default and put.
- JSON lists are sets in the model. `dump` writes `list(us)` and `limit` writes `list(limit)`, and their element order is never observed.
- The order in which Python iterates a set is arbitrary. The model picks any order (`Order.Enumerate`) and states results for all of them.
- Reply wording, gettext translation, configuration parsing in `initialize`, `bot_handler.identity()` and `send_reply` are not modelled. Replies are values of `Reply`, and the help text is modelled only for `tagger-bot.py`.
- The `defaultdict` insertion of an empty entry when `find` reads an unknown key is not modelled (`At` reads a missing key as the empty set). That entry would only be written if the mapping were dirty, and search never makes it dirty.
- `use` is not a separate member. Each command loads, runs its body and stores in sequence, and on an exception the store is left unwritten, as the generator-based context manager does.
- An empty set from `read_parameters` cannot occur, because `split` always yields a piece, so `results[0]` never fails on an empty query.
- Exceptions raised by the chat host or the store are not modelled; only the exceptions the bot's own code raises are.
