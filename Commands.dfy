/**
  What the two handlers share: the inbound message, the command/parameter
  split, `read_parameters`, the replies, the mutators of the list/add/remove
  commands and the search helpers.
 */
module Commands {

  import opened Wrappers
  import opened Text
  import opened Storage
  import opened TagIndex
  import Mapping

  /** An inbound message: its body, and the sender's full name if present, else e-mail. */
  datatype Message = Message(content: string, fullName: Option<string>, email: string)

  /** The sender's name: the full name whenever the message carries one, else the e-mail address. */
  function Sender(msg: Message): string {
    if msg.fullName.Some? then msg.fullName.value else msg.email
  }

  /** The command word and the 0 or 1 remainder segments (`command, *params = ...`). */
  datatype Parsed = Parsed(command: string, params: seq<string>)

  /**
    The split of `handle_message`: on the first `:` when the stripped body has
    one, else on the first space.
   */
  function ParseMessage(content: string): (p: Parsed)
    ensures |p.params| <= 1
    ensures var s := Strip(content); var sep := if ':' in s then ':' else ' ';
      && sep !in p.command
      && (p.params == [] <==> sep !in s)
      && (p.params == [] ==> p.command == s)
      && (p.params != [] ==> s == p.command + [sep] + p.params[0])
  {
    var s := Strip(content);
    var parts := if ':' in s then SplitOnce(s, ':') else SplitOnce(s, ' ');
    Parsed(parts[0], parts[1..])
  }

  lemma StrippedPieces(ps: seq<string>)
    requires forall p :: p in ps ==> ',' !in p
    ensures forall p :: p in ps ==> ',' !in Strip(p) && Strip(Strip(p)) == Strip(p)
  {
    forall p | p in ps ensures ',' !in Strip(p) && Strip(Strip(p)) == Strip(p) {
      StripShape(p);
      StripIdempotent(p);
    }
  }

  /**
    `read_parameters(params)`: `None` (the `MissingParameterError`) unless there
    is exactly one segment; else its comma-separated pieces, stripped, as a set.
   */
  function ReadParameters(params: seq<string>): (r: Option<set<string>>)
    ensures r.None? <==> |params| != 1
  {
    if |params| != 1 then None
    else Some(StripAll(Split(params[0], ',')))
  }

  /** `set(map(str.strip, pieces))` */
  function StripAll(pieces: seq<string>): set<string> {
    set p | p in pieces :: Strip(p)
  }

  /** Pieces that are already stripped are kept as they are. */
  lemma StripAllStripped(pieces: seq<string>)
    requires forall x :: x in pieces ==> Strip(x) == x
    ensures StripAll(pieces) == Elems(pieces)
  {
    var r := StripAll(pieces);
    forall x | x in pieces ensures x in r {
      assert Strip(x) == x;
    }
    forall x | x in r ensures x in pieces {
      var p :| p in pieces && Strip(p) == x;
    }
  }

  /** Whenever parsing succeeds it yields at least one parameter, none with a comma or surrounding white space. */
  lemma ReadParametersShape(params: seq<string>)
    requires |params| == 1
    ensures var r := ReadParameters(params).value;
      r != {} && forall x :: x in r ==> ',' !in x && Strip(x) == x
  {
    var pieces := Split(params[0], ',');
    StrippedPieces(pieces);
    var r := ReadParameters(params).value;
    assert Strip(pieces[0]) in r;
    forall x | x in r ensures ',' !in x && Strip(x) == x {
      var p :| p in pieces && Strip(p) == x;
    }
  }

  /** A single remainder always yields at least one parameter, since `split` yields at least one piece. */
  lemma ReadParametersNonEmpty(params: seq<string>)
    requires |params| == 1
    ensures ReadParameters(params).value != {}
  {
    var pieces := Split(params[0], ',');
    assert Strip(pieces[0]) in StripAll(pieces);
  }

  /** Parameters written without stray spaces are read back as exactly the set written. */
  lemma ReadParametersRoundTrip(items: seq<string>)
    requires |items| >= 1
    requires forall x :: x in items ==> ',' !in x && Strip(x) == x
    ensures ReadParameters([Join(items, ',')]) == Some(Elems(items))
  {
    var j := Join(items, ',');
    JoinSplit(items, ',');
    StripAllStripped(items);
  }

  /** An empty remainder (`add:`) is one empty parameter, not a missing one. */
  lemma ReadEmptyRemainder()
    ensures ReadParameters([""]) == Some({""})
  {
    assert Split("", ',') == [""];
    assert Strip("") == "";
    var r := ReadParameters([""]).value;
    assert r == set p | p in [""] :: Strip(p);
    assert "" in r;
    forall x | x in r ensures x == "" {
      var p :| p in [""] && Strip(p) == x;
    }
    assert r == {""};
  }

  /** The replies the bot sends; their wording is not modelled. */
  datatype Reply =
    | Usage
    | Manual(text: string)
    | TagList(sender: string, tags: set<string>)
    | SortedTagList(sender: string, sortedTags: seq<string>)
    | SearchResult(sender: string, query: set<string>, found: set<string>)
    | SearchTypo(sender: string, tag: string, suggestion: string)
    | SearchUnknown(sender: string, tag: string)
    | Limited(limit: set<string>)
    | Unlimited
    | MissingParameter
    | UnknownCommand(command: string)

  /** The exceptions that end handling with a log entry and no reply. */
  datatype Failure =
    | StoredMappingIsList     // `d.items()` on a stored list, in `load`
    | NoTagToCompare          // `max()` of no tags, in `nearest`
    | FormatArgumentMissing   // a format string with more fields than arguments
    | ListHasNoIntersection   // `.intersection` called on a sorted list
    | LimitCallMisbound       // `command_limit` called with its arguments shifted by one

  datatype Outcome = Sent(reply: Reply) | Logged(failure: Failure)

  /** What `nearest` reports: the best known tag and whether its ratio exceeds 0.75. */
  datatype Suggestion = Suggestion(tag: string, close: bool)

  /** `nearest`, as an oracle over the known tags and the query. */
  type Nearest = (set<string>, string) -> Suggestion

  /** The mutator of the list (none), add and remove commands. */
  datatype Mutator = Keep | Adding | Removing

  /**
    The parser paired with each mutator: the default parser yields no tags and
    never fails; add and remove fail without exactly one remainder and otherwise
    always have a tag to work on.
   */
  function ParseFor(mut: Mutator, params: seq<string>): (r: Option<set<string>>)
    ensures r.None? <==> mut != Keep && |params| != 1
    ensures mut == Keep ==> r == Some({})
    ensures mut != Keep && r.Some? ==> r.value != {}
    ensures mut != Keep ==> r == ReadParameters(params)
  {
    if mut == Keep then Some({})
    else if |params| == 1 then (ReadParametersNonEmpty(params); ReadParameters(params))
    else ReadParameters(params)
  }

  /** Both indices after the mutator ran for `user` and tags `ts`. */
  function Apply(mut: Mutator, tags: Index, users: Index, user: string, ts: set<string>): (Index, Index) {
    match mut
    case Keep => (tags, users)
    case Adding => (AddTags(tags, user, ts), AddUsers(users, user, ts))
    case Removing => (RemoveTags(tags, user, ts), RemoveUsers(users, user, ts))
  }

  /** Every mutator keeps invariant I1 and lower-case tag keys. */
  lemma ApplyKeepsInvariant(mut: Mutator, tags: Index, users: Index, user: string, ts: set<string>)
    requires Consistent(tags, users) && LowerKeys(tags)
    ensures var r := Apply(mut, tags, users, user, ts); Consistent(r.0, r.1) && LowerKeys(r.0)
  {
    match mut
    case Keep =>
    case Adding =>
      AddKeepsConsistent(tags, users, user, ts);
      AddKeepsLowerKeys(tags, user, ts);
    case Removing =>
      RemoveKeepsConsistent(tags, users, user, ts);
      AddKeepsLowerKeys(tags, user, ts);
  }

  /** `limit.intersection(*results)`: the limit users carrying every queried tag. */
  function Matching(tags: Index, query: set<string>, limit: set<string>): set<string> {
    set u | u in limit && forall t :: t in query ==> u in At(tags, Lower(t))
  }

  /** The reply to the first unknown tag: a typo hint when the nearest tag is close. */
  function UnknownTagReply(sender: string, tag: string, s: Suggestion): Reply {
    if s.close then SearchTypo(sender, tag, s.tag) else SearchUnknown(sender, tag)
  }

  /** The key a queried tag is looked up under: raw, or lowered. */
  function Probe(tag: string, lowered: bool): string {
    if lowered then Lower(tag) else tag
  }

  /**
    The membership loop of search: the position of the first queried tag that
    is not in the mapping (`tag in tags`), or `|order|` when all are.
   */
  method FirstUnknown(m: Mapping.TagMapping, order: seq<string>, lowered: bool) returns (i: nat)
    requires m.Valid()
    ensures i <= |order|
    ensures forall j :: 0 <= j < i ==> Probe(order[j], lowered) in m.tags
    ensures i < |order| ==> Probe(order[i], lowered) !in m.tags
  {
    i := 0;
    while i < |order|
      invariant i <= |order|
      invariant forall j :: 0 <= j < i ==> Probe(order[j], lowered) in m.tags
    {
      if !m.Contains(Probe(order[i], lowered)) {
        return;
      }
      i := i + 1;
    }
  }
}
