/** The tag-state machine of `FbChatHTMLParser` (parser.py): a pure step function per event kind
    the HTML tokenizer reports, and the finalization of a message into the statistics. */
module Parser {
  import opened Wrappers
  import opened Text
  import opened Timestamp
  import opened Accumulator

  /** `FbMessage`: author, body (one line per paragraph), raw timestamp text, reaction count. */
  datatype Message = Message(author: string, content: string, datetime: string, reactions: nat)

  /** The record installed when a message opens. */
  const EmptyMessage: Message := Message("", "", "", 0)

  /** The structural contexts, one per boolean flag of the source (`in_convo_tags`, ...). */
  datatype Context = InConvo | InMsg | InMsgHeader | InReactionList | InReaction | InUser | InMeta | InP

  /** An attribute as the tokenizer reports it; a valueless attribute has no value. */
  datatype Attr = Attr(name: string, value: Option<string>)

  /** The events `HTMLParser` delivers to the handlers. */
  datatype Event = StartTag(tag: string, attrs: seq<Attr>) | EndTag(tag: string) | Data(text: string)

  /** The parser's fields: the open contexts, `cur_msg`, `user_data`, `all_participants` and
      `most_reacted_msgs`. */
  datatype State = State(
    open: set<Context>,
    cur: Option<Message>,
    users: seq<Acc>,
    all: Acc,
    reacted: seq<Message>)

  /** The exceptions that end a run. */
  datatype Failure =
    | MalformedTimestamp  // the pattern does not match, or its hour group is empty
    | HourOutOfRange      // an hour of 24 or more indexes past the hour histogram
    | UnknownWeekday      // the weekday sentinel used as a list index
    | NoCurrentMessage    // a reaction or text routed to a message before any message opened

  /** The state right after `__init__`: no context, no message, no author, a zero aggregate. */
  function Init(): (st: State)
    ensures st.open == {} && st.cur.None? && st.users == [] && st.reacted == []
    ensures st.all.name == AllName && st.all.nMsgs == 0 && st.all.nWords == 0
  {
    State({}, None, [], NewAcc(AllName), [])
  }

  /** `("class", c) in attrs`. */
  predicate HasClass(attrs: seq<Attr>, c: string) {
    Attr("class", Some(c)) in attrs
  }

  /** The context a context is entered from; `InConvo` is entered from anywhere. */
  function Parent(c: Context): Option<Context> {
    match c
    case InConvo => None
    case InMsg => Some(InConvo)
    case InMsgHeader => Some(InMsg)
    case InUser => Some(InMsgHeader)
    case InMeta => Some(InMsgHeader)
    case InReactionList => Some(InConvo)
    case InReaction => Some(InReactionList)
    case InP => Some(InConvo)
  }

  /** The contexts an element with tag `tag` stands for. */
  function ContextsOf(tag: string): set<Context> {
    if tag == "div" then {InConvo, InMsg, InMsgHeader}
    else if tag == "span" then {InUser, InMeta}
    else if tag == "ul" then {InReactionList}
    else if tag == "li" then {InReaction}
    else if tag == "p" then {InP}
    else {}
  }

  /** The contexts a closing tag may leave, most deeply nested first. */
  function ClosingOrder(tag: string): seq<Context> {
    if tag == "div" then [InMsgHeader, InMsg, InConvo]
    else if tag == "span" then [InUser, InMeta]
    else if tag == "ul" then [InReactionList]
    else if tag == "li" then [InReaction]
    else if tag == "p" then [InP]
    else []
  }

  /** The first context of `order` that is open, if any, as a set of at most one element. */
  function FirstOpen(open: set<Context>, order: seq<Context>): (r: set<Context>)
    ensures r <= open && |r| <= 1
    ensures r == {} <==> forall i :: 0 <= i < |order| ==> order[i] !in open
    ensures forall c :: c in r ==> exists i :: 0 <= i < |order| && order[i] == c
                                     && forall j :: 0 <= j < i ==> order[j] !in open
  {
    if |order| == 0 then {}
    else if order[0] in open then {order[0]}
    else
      var r := FirstOpen(open, order[1..]);
      assert forall c :: c in r ==> exists i :: 1 <= i < |order| && order[i] == c
                                     && forall j :: 1 <= j < i ==> order[j] !in open;
      r
  }

  /** The context a closing `div` leaves: the innermost of header, message and conversation. */
  lemma DivCloses(open: set<Context>)
    ensures FirstOpen(open, ClosingOrder("div"))
         == if InMsgHeader in open then {InMsgHeader}
            else if InMsg in open then {InMsg}
            else if InConvo in open then {InConvo}
            else {}
  {
    var order := ClosingOrder("div");
    assert order[1..] == [InMsg, InConvo] && order[1..][1..] == [InConvo] && order[1..][1..][1..] == [];
    assert FirstOpen(open, order[1..][1..]) == if InConvo in open then {InConvo} else {};
    assert FirstOpen(open, order[1..]) == if InMsg in open then {InMsg} else FirstOpen(open, order[1..][1..]);
  }

  /** The context a closing `span` leaves: the user label before the meta label. */
  lemma SpanCloses(open: set<Context>)
    ensures FirstOpen(open, ClosingOrder("span"))
         == if InUser in open then {InUser} else if InMeta in open then {InMeta} else {}
  {
    var order := ClosingOrder("span");
    assert order[1..] == [InMeta] && order[1..][1..] == [];
  }

  /** The tags with a single context leave it when it is open; other tags leave nothing. */
  lemma SingleCloses(open: set<Context>, tag: string)
    requires tag != "div" && tag != "span"
    ensures FirstOpen(open, ClosingOrder(tag))
         == if |ClosingOrder(tag)| == 1 && ClosingOrder(tag)[0] in open then {ClosingOrder(tag)[0]} else {}
  {
    var order := ClosingOrder(tag);
    if |order| == 1 {
      assert order[1..] == [];
    }
  }

  /** The start tag that opens a new message: a `message` div inside the conversation, when the
      same element is not also marked `thread`. */
  predicate OpensMessage(st: State, tag: string, attrs: seq<Attr>) {
    tag == "div" && !HasClass(attrs, "thread") && InConvo in st.open && HasClass(attrs, "message")
  }

  /** The weekday and hour a finalized message is counted under. */
  datatype Slot = Slot(weekday: nat, hour: nat)

  /** The checks finalization makes on a timestamp, in the order the source fails them: no
      match or an empty hour group first, then an hour past the histogram, then an unknown weekday. */
  function Decode(s: string): (r: Result<Slot, Failure>)
    ensures r.Ok? ==> r.value.weekday < 7 && r.value.hour < 24
    ensures r == Err(MalformedTimestamp) <==> GetMsgTimeInfo(s).None?
    ensures r == Err(HourOutOfRange) <==> GetMsgTimeInfo(s).Some? && GetMsgTimeInfo(s).value.hour >= 24
    ensures r == Err(UnknownWeekday) <==>
              GetMsgTimeInfo(s).Some? && GetMsgTimeInfo(s).value.hour < 24 && GetMsgTimeInfo(s).value.weekday.None?
    ensures r.Ok? <==>
              GetMsgTimeInfo(s).Some? && GetMsgTimeInfo(s).value.hour < 24 && GetMsgTimeInfo(s).value.weekday.Some?
    ensures r.Ok? ==>
              && GetMsgTimeInfo(s).value.weekday == Some(r.value.weekday)
              && GetMsgTimeInfo(s).value.hour == r.value.hour
  {
    match GetMsgTimeInfo(s)
    case None => Err(MalformedTimestamp)
    case Some(info) =>
      if info.hour >= 24 then Err(HourOutOfRange)
      else if info.weekday.None? then Err(UnknownWeekday)
      else Ok(Slot(info.weekday.value, info.hour))
  }

  /** A timestamp built from a weekday, three date words and an hour of the day, followed by any
      non-digit text, decodes to that weekday and hour. */
  lemma DecodeStampSlot(weekday: nat, first: string, second: string, third: string, hour: nat, rest: string)
    requires weekday < 7 && hour < 24
    requires AllIn(first, Word) && AllIn(second, Word) && AllIn(third, Word)
    requires |rest| > 0 ==> !IsDigit(rest[0])
    ensures Decode(Stamp(weekday, first, second, third, hour) + rest) == Ok(Slot(weekday, hour))
  {
    DecodeStamp(weekday, first, second, third, hour, rest);
  }

  /** A timestamp that fits the pattern with an hour of the day but names no weekday fails with
      `UnknownWeekday`: the sentinel of the weekday table is never taken for an index. */
  lemma DecodeUnknownWeekday(m: TimeMatch, rest: string)
    requires m.WellFormed() && m.weekday !in WeekdayNames
    requires |m.hour| > 0 && DigitsValue(m.hour) < 24
    requires |rest| > 0 ==> !IsDigit(rest[0])
    ensures Decode(m.Consumed() + rest) == Err(UnknownWeekday)
  {
    MatchOf(m, rest);
  }

  /** A message body is empty or ends with the newline its last paragraph added. */
  predicate WholeLines(content: string) {
    |content| == 0 || content[|content| - 1] == '\n'
  }

  /** What holds of the parser's state between any two events: every accumulator's histograms
      sum to its totals, the aggregate's totals are the sums over the authors, no author is
      registered twice, and the pending body consists of whole lines. */
  predicate Invariant(st: State) {
    && st.all.name == AllName
    && Consistent(st.all)
    && AllConsistent(st.users)
    && st.all.nMsgs == TotalMsgs(st.users)
    && st.all.nWords == TotalWords(st.users)
    && Distinct(Names(st.users))
    && (st.cur.Some? ==> WholeLines(st.cur.value.content))
  }

  /** The reaction-list entry for a finalized message: itself when it has reactions. */
  function ReactedEntry(m: Message): seq<Message> {
    if m.reactions > 0 then [m] else []
  }

  /** What finalizing the pending message of `st` left in `st'`: the aggregate and the author's
      accumulator (created if missing) each counted the message once under its weekday and hour with
      its word count, every other author is untouched, a new author is registered last, the message joined the reaction list if it
      has reactions, and contexts and pending message are as they were. */
  ghost predicate FinalizedInto(st: State, st': State)
    requires st.cur.Some? && Decode(st.cur.value.datetime).Ok?
  {
    var m := st.cur.value;
    var slot := Decode(m.datetime).value;
    CountedInto(st, m, slot, st')
  }

  /** `st'` is `st` after counting message `m` under `slot`. */
  ghost predicate CountedInto(st: State, m: Message, slot: Slot, st': State) {
    var n := CountWords(m.content);
    && Counted(st.all, st'.all, slot.weekday, slot.hour, n)
    && Lookup(st'.users, m.author).Some?
    && Counted(Lookup(st.users, m.author).GetOr(NewAcc(m.author)), Lookup(st'.users, m.author).value,
               slot.weekday, slot.hour, n)
    && (forall other :: other != m.author ==> Lookup(st'.users, other) == Lookup(st.users, other))
    && Names(st'.users) == (if m.author in Names(st.users) then Names(st.users) else Names(st.users) + [m.author])
    && st'.reacted == st.reacted + ReactedEntry(m)
    && st'.open == st.open && st'.cur == st.cur
  }

  /** Lines 116-139 of the source once the timestamp has decoded to `slot`. */
  function CountMessage(st: State, m: Message, slot: Slot): (st': State)
    requires slot.weekday < 7 && slot.hour < 24
    ensures CountedInto(st, m, slot, st')
  {
    var n := CountWords(m.content);
    st.(all := Record(st.all, slot.weekday, slot.hour, n),
        users := Credit(st.users, m.author, slot.weekday, slot.hour, n),
        reacted := st.reacted + ReactedEntry(m))
  }

  /** Counting a message keeps the invariant: the aggregate and the author gain the same amounts. */
  lemma CountKeepsInvariant(st: State, m: Message, slot: Slot)
    requires slot.weekday < 7 && slot.hour < 24
    ensures Invariant(st) ==> Invariant(CountMessage(st, m, slot))
  {
    var n := CountWords(m.content);
    var all := Record(st.all, slot.weekday, slot.hour, n);
    var users := Credit(st.users, m.author, slot.weekday, slot.hour, n);
    TotalsKept(st, all, users, st.reacted + ReactedEntry(m), n);
  }

  lemma TotalsKept(st: State, all: Acc, users: seq<Acc>, reacted: seq<Message>, n: nat)
    requires all.name == st.all.name && all.nMsgs == st.all.nMsgs + 1 && all.nWords == st.all.nWords + n
    requires Consistent(st.all) ==> Consistent(all)
    requires TotalMsgs(users) == TotalMsgs(st.users) + 1 && TotalWords(users) == TotalWords(st.users) + n
    requires AllConsistent(st.users) ==> AllConsistent(users)
    requires Distinct(Names(st.users)) ==> Distinct(Names(users))
    ensures Invariant(st) ==> Invariant(st.(all := all, users := users, reacted := reacted))
  {
  }

  /** `finalize_last_message`. With no pending message nothing happens; otherwise it fails
      exactly when the timestamp does not decode, with the failure the decoding reports, and
      else counts the message. */
  function Finalize(st: State): (r: Result<State, Failure>)
    ensures st.cur.None? ==> r == Ok(st)
    ensures st.cur.Some? ==> (r.Ok? <==> Decode(st.cur.value.datetime).Ok?)
    ensures st.cur.Some? && r.Err? ==> r.error == Decode(st.cur.value.datetime).error
    ensures st.cur.Some? && r.Ok? ==> FinalizedInto(st, r.value)
    ensures r.Ok? ==> r.value.open == st.open && r.value.cur == st.cur
    ensures r.Ok? && Invariant(st) ==> Invariant(r.value)
  {
    match st.cur
    case None => Ok(st)
    case Some(m) =>
      var d := Decode(m.datetime);
      if d.Err? then Err(d.error)
      else
        CountKeepsInvariant(st, m, d.value);
        Ok(CountMessage(st, m, d.value))
  }

  /** The flags `handle_starttag` sets for a start tag, given the flags set before it. A `message`
      div inside the conversation sets none here: opening a message is the one case that does more
      than set a flag, and `HandleStartTag` handles it. */
  function Entered(open: set<Context>, tag: string, attrs: seq<Attr>): (e: set<Context>)
    ensures InConvo in e <==> tag == "div" && HasClass(attrs, "thread")
    ensures InMsg !in e
    ensures InMsgHeader in e <==>
              && tag == "div" && !HasClass(attrs, "thread") && !(InConvo in open && HasClass(attrs, "message"))
              && InMsg in open && HasClass(attrs, "message_header")
    ensures InUser in e <==> tag == "span" && InMsgHeader in open && HasClass(attrs, "user")
    ensures InMeta in e <==> tag == "span" && InMsgHeader in open && HasClass(attrs, "meta")
    ensures InReactionList in e <==> tag == "ul" && InConvo in open
    ensures InReaction in e <==> tag == "li" && InReactionList in open
    ensures InP in e <==> tag == "p" && InConvo in open
  {
    if tag == "div" then
      if HasClass(attrs, "thread") then {InConvo}
      else if InConvo in open && HasClass(attrs, "message") then {}
      else if InMsg in open && HasClass(attrs, "message_header") then {InMsgHeader}
      else {}
    else if tag == "span" && InMsgHeader in open then
      (if HasClass(attrs, "user") then {InUser} else {}) + (if HasClass(attrs, "meta") then {InMeta} else {})
    else if tag == "ul" && InConvo in open then {InReactionList}
    else if tag == "li" && InReactionList in open then {InReaction}
    else if tag == "p" && InConvo in open then {InP}
    else {}
  }

  /** `handle_starttag`. */
  function HandleStartTag(st: State, tag: string, attrs: seq<Attr>): (r: Result<State, Failure>)
    // a message open finalizes the pending message and installs an empty one
    ensures OpensMessage(st, tag, attrs) ==> (r.Ok? <==> Finalize(st).Ok?)
    ensures OpensMessage(st, tag, attrs) && r.Ok? ==>
              r.value == Finalize(st).value.(cur := Some(EmptyMessage), open := st.open + {InMsg})
    // any other start tag only enters contexts
    ensures !OpensMessage(st, tag, attrs) ==>
              r.Ok? && r.value == st.(open := r.value.open)
    // which flag each tag sets, in the order the source tests them: a flag is set afterwards
    // exactly when it was set before or this tag sets it
    ensures r.Ok? ==> (InConvo in r.value.open <==> InConvo in st.open || (tag == "div" && HasClass(attrs, "thread")))
    ensures r.Ok? ==> (InMsg in r.value.open <==> InMsg in st.open || OpensMessage(st, tag, attrs))
    ensures r.Ok? ==>
              (InMsgHeader in r.value.open <==>
                 || InMsgHeader in st.open
                 || (&& tag == "div" && !HasClass(attrs, "thread") && !OpensMessage(st, tag, attrs)
                     && InMsg in st.open && HasClass(attrs, "message_header")))
    ensures r.Ok? ==>
              (InUser in r.value.open <==>
                 InUser in st.open || (tag == "span" && InMsgHeader in st.open && HasClass(attrs, "user")))
    ensures r.Ok? ==>
              (InMeta in r.value.open <==>
                 InMeta in st.open || (tag == "span" && InMsgHeader in st.open && HasClass(attrs, "meta")))
    ensures r.Ok? ==> (InReactionList in r.value.open <==> InReactionList in st.open || (tag == "ul" && InConvo in st.open))
    ensures r.Ok? ==> (InReaction in r.value.open <==> InReaction in st.open || (tag == "li" && InReactionList in st.open))
    ensures r.Ok? ==> (InP in r.value.open <==> InP in st.open || (tag == "p" && InConvo in st.open))
    ensures r.Ok? && Invariant(st) ==> Invariant(r.value)
  {
    if OpensMessage(st, tag, attrs) then
      var st1 :- Finalize(st);
      Ok(st1.(cur := Some(EmptyMessage), open := st1.open + {InMsg}))
    else
      Ok(st.(open := st.open + Entered(st.open, tag, attrs)))
  }

  /** Hence a start tag never leaves a context, enters only contexts of its own kind, and enters
      each of them only from inside its parent. */
  lemma StartTagShape(st: State, tag: string, attrs: seq<Attr>)
    requires HandleStartTag(st, tag, attrs).Ok?
    ensures var after := HandleStartTag(st, tag, attrs).value.open;
      st.open <= after && after - st.open <= ContextsOf(tag)
    ensures var after := HandleStartTag(st, tag, attrs).value.open;
      forall c :: c in after - st.open ==> Parent(c).None? || Parent(c).value in st.open
  {
  }

  /** `handle_endtag`. */
  function HandleEndTag(st: State, tag: string): (r: Result<State, Failure>)
    // it fails only when a reaction closes before any message opened
    ensures r.Err? <==> tag == "li" && InReaction in st.open && st.cur.None?
    ensures r.Err? ==> r.error == NoCurrentMessage
    // it leaves exactly the first open context of the tag's closing order, and no other
    ensures r.Ok? ==> r.value.open == st.open - FirstOpen(st.open, ClosingOrder(tag))
    // closing a reaction counts one more reaction on the pending message and changes nothing else of it
    ensures r.Ok? && tag == "li" && InReaction in st.open ==>
              r.value.cur == Some(st.cur.value.(reactions := st.cur.value.reactions + 1))
    ensures r.Ok? && !(tag == "li" && InReaction in st.open) ==> r.value.cur == st.cur
    // the statistics are untouched
    ensures r.Ok? ==> r.value.users == st.users && r.value.all == st.all && r.value.reacted == st.reacted
  {
    if tag == "div" then
      DivCloses(st.open);
      if InMsgHeader in st.open then Ok(st.(open := st.open - {InMsgHeader}))
      else if InMsg in st.open then Ok(st.(open := st.open - {InMsg}))
      else if InConvo in st.open then Ok(st.(open := st.open - {InConvo}))
      else Ok(st)
    else if tag == "span" then
      SpanCloses(st.open);
      if InUser in st.open then Ok(st.(open := st.open - {InUser}))
      else if InMeta in st.open then Ok(st.(open := st.open - {InMeta}))
      else Ok(st)
    else
      SingleCloses(st.open, tag);
      if tag == "ul" && InReactionList in st.open then Ok(st.(open := st.open - {InReactionList}))
      else if tag == "li" && InReaction in st.open then
        match st.cur
        case None => Err(NoCurrentMessage)
        case Some(m) => Ok(st.(open := st.open - {InReaction}, cur := Some(m.(reactions := m.reactions + 1))))
      else if tag == "p" && InP in st.open then Ok(st.(open := st.open - {InP}))
      else Ok(st)
  }

  /** Text is routed to the pending message in one of these contexts. */
  predicate Routes(open: set<Context>) {
    InUser in open || InMeta in open || InP in open
  }

  /** `handle_data`. */
  function HandleData(st: State, text: string): (r: Result<State, Failure>)
    ensures r.Err? <==> Routes(st.open) && st.cur.None?
    ensures r.Err? ==> r.error == NoCurrentMessage
    ensures !Routes(st.open) ==> r == Ok(st)
    // the routing priority: user label, then meta label, then paragraph
    ensures r.Ok? && InUser in st.open ==> r.value.cur == Some(st.cur.value.(author := text))
    ensures r.Ok? && InUser !in st.open && InMeta in st.open ==>
              r.value.cur == Some(st.cur.value.(datetime := text))
    ensures r.Ok? && InUser !in st.open && InMeta !in st.open && InP in st.open ==>
              r.value.cur == Some(st.cur.value.(content := st.cur.value.content + text + "\n"))
    // only the pending message changes
    ensures r.Ok? ==> r.value == st.(cur := r.value.cur)
  {
    if !Routes(st.open) then Ok(st)
    else
      match st.cur
      case None => Err(NoCurrentMessage)
      case Some(m) =>
        if InUser in st.open then Ok(st.(cur := Some(m.(author := text))))
        else if InMeta in st.open then Ok(st.(cur := Some(m.(datetime := text))))
        else Ok(st.(cur := Some(m.(content := m.content + text + "\n"))))
  }

  /** A paragraph's text adds exactly its own words to the pending message's word count. */
  lemma ParagraphWords(st: State, text: string)
    requires Invariant(st) && st.cur.Some?
    requires InUser !in st.open && InMeta !in st.open && InP in st.open
    ensures HandleData(st, text).Ok?
    ensures CountWords(HandleData(st, text).value.cur.value.content)
         == CountWords(st.cur.value.content) + CountWords(text)
  {
    CountWordsAppendLine(st.cur.value.content, text);
  }

  /** The event is a start tag that opens a new message. */
  predicate Opening(st: State, ev: Event) {
    ev.StartTag? && OpensMessage(st, ev.tag, ev.attrs)
  }

  /** What `Step` promises, for a start tag. */
  lemma StartTagStep(st: State, tag: string, attrs: seq<Attr>)
    ensures var r := HandleStartTag(st, tag, attrs);
      r.Ok? && !(OpensMessage(st, tag, attrs) && st.cur.Some?) ==>
        r.value.all == st.all && r.value.users == st.users && r.value.reacted == st.reacted
    ensures var r := HandleStartTag(st, tag, attrs);
      r.Err? ==> OpensMessage(st, tag, attrs) && st.cur.Some? && Finalize(st) == Err(r.error)
    ensures var r := HandleStartTag(st, tag, attrs);
      r.Err? ==> r.error != NoCurrentMessage
    ensures var r := HandleStartTag(st, tag, attrs);
      r.Ok? && st.cur.Some? ==> r.value.cur.Some?
  {
  }

  /** The handler for one event. Only a message open over a pending message touches the
      statistics, and only a message open can fail on a timestamp, with the failure of finalizing
      the pending message; any other event fails only for want of a message. A pending message
      stays pending. */
  function Step(st: State, ev: Event): (r: Result<State, Failure>)
    ensures r.Ok? && !(Opening(st, ev) && st.cur.Some?) ==>
              r.value.all == st.all && r.value.users == st.users && r.value.reacted == st.reacted
    ensures r.Err? ==> (r.error == NoCurrentMessage <==> !Opening(st, ev))
    ensures r.Err? && Opening(st, ev) ==> st.cur.Some? && Finalize(st) == Err(r.error)
    ensures r.Ok? && st.cur.Some? ==> r.value.cur.Some?
  {
    match ev
    case StartTag(tag, attrs) =>
      StartTagStep(st, tag, attrs);
      HandleStartTag(st, tag, attrs)
    case EndTag(tag) => HandleEndTag(st, tag)
    case Data(text) => HandleData(st, text)
  }

  /** Every event keeps the invariant, and once a message has opened there is always one pending. */
  lemma StepInvariant(st: State, ev: Event)
    requires Invariant(st) && Step(st, ev).Ok?
    ensures Invariant(Step(st, ev).value)
    ensures st.cur.Some? ==> Step(st, ev).value.cur.Some?
  {
    match ev
    case StartTag(tag, attrs) =>
    case EndTag(tag) =>
    case Data(text) =>
      if Routes(st.open) && InUser !in st.open && InMeta !in st.open {
        assert (st.cur.value.content + text + "\n")[|st.cur.value.content + text + "\n"| - 1] == '\n';
      }
  }
}
