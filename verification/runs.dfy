/** A whole run of the parser over the events the HTML tokenizer reports (`feed` in parser.py), and
    what the statistics hold once it is over. */
module Runs {
  import opened Wrappers
  import opened Text
  import opened Accumulator
  import opened Parser

  /** The handlers applied to the events in order; the first exception ends the run. A pending
      message stays pending to the end, and a run along which no message is ever pending counts
      nothing. */
  function Run(st: State, evs: seq<Event>): (r: Result<State, Failure>)
    ensures r.Ok? && st.cur.Some? ==> r.value.cur.Some?
    ensures r.Ok? && r.value.cur.None? ==>
              r.value.all == st.all && r.value.users == st.users && r.value.reacted == st.reacted
    decreases |evs|
  {
    if |evs| == 0 then Ok(st)
    else
      var st1 :- Step(st, evs[0]);
      Run(st1, evs[1..])
  }

  /** The message finalized by handling `ev` in `st`: the pending one, when `ev` opens a new one. */
  function FinalizedBy(st: State, ev: Event): seq<Message> {
    if Opening(st, ev) && st.cur.Some? then [st.cur.value] else []
  }

  /** The messages finalized along a successful run, in order. */
  function Finalized(st: State, evs: seq<Event>): seq<Message>
    requires Run(st, evs).Ok?
    decreases |evs|
  {
    if |evs| == 0 then []
    else FinalizedBy(st, evs[0]) + Finalized(Step(st, evs[0]).value, evs[1..])
  }

  /** The number of message opens recognised along a successful run. */
  function Opens(st: State, evs: seq<Event>): nat
    requires Run(st, evs).Ok?
    decreases |evs|
  {
    if |evs| == 0 then 0
    else (if Opening(st, evs[0]) then 1 else 0) + Opens(Step(st, evs[0]).value, evs[1..])
  }

  /** The total word count of some messages. */
  function WordsIn(ms: seq<Message>): nat {
    if |ms| == 0 then 0 else CountWords(ms[0].content) + WordsIn(ms[1..])
  }

  /** The messages among `ms` that have reactions, in order. */
  function WithReactions(ms: seq<Message>): seq<Message> {
    if |ms| == 0 then [] else ReactedEntry(ms[0]) + WithReactions(ms[1..])
  }

  /** The number of messages among `ms` written by `name`. */
  function Authored(ms: seq<Message>, name: string): nat {
    if |ms| == 0 then 0 else (if ms[0].author == name then 1 else 0) + Authored(ms[1..], name)
  }

  /** The totals over a concatenation are the totals over its parts. */
  lemma TalliesAppend(a: seq<Message>, b: seq<Message>)
    ensures WordsIn(a + b) == WordsIn(a) + WordsIn(b)
    ensures WithReactions(a + b) == WithReactions(a) + WithReactions(b)
    ensures forall name :: Authored(a + b, name) == Authored(a, name) + Authored(b, name)
  {
    WordsAppend(a, b);
    ReactionsAppend(a, b);
    forall name
      ensures Authored(a + b, name) == Authored(a, name) + Authored(b, name)
    {
      AuthoredAppend(a, b, name);
    }
  }

  lemma {:induction false} WordsAppend(a: seq<Message>, b: seq<Message>)
    ensures WordsIn(a + b) == WordsIn(a) + WordsIn(b)
  {
    if |a| > 0 {
      WordsAppend(a[1..], b);
      assert (a + b)[1..] == a[1..] + b;
    } else {
      assert a + b == b;
    }
  }

  lemma {:induction false} ReactionsAppend(a: seq<Message>, b: seq<Message>)
    ensures WithReactions(a + b) == WithReactions(a) + WithReactions(b)
  {
    if |a| > 0 {
      ReactionsAppend(a[1..], b);
      assert (a + b)[1..] == a[1..] + b;
    } else {
      assert a + b == b;
    }
  }

  lemma {:induction false} AuthoredAppend(a: seq<Message>, b: seq<Message>, name: string)
    ensures Authored(a + b, name) == Authored(a, name) + Authored(b, name)
  {
    if |a| > 0 {
      AuthoredAppend(a[1..], b, name);
      assert (a + b)[1..] == a[1..] + b;
    } else {
      assert a + b == b;
    }
  }

  /** Every author's message count in `after` is the count in `before` plus the messages of `fin`
      that author wrote. */
  ghost predicate CreditedWith(before: seq<Acc>, after: seq<Acc>, fin: seq<Message>) {
    forall name :: MsgsOf(Lookup(after, name)) == MsgsOf(Lookup(before, name)) + Authored(fin, name)
  }

  /** What one event does to the statistics: the message it finalizes, if any, is counted once in
      the aggregate and once for its author, joins the reaction list if it has reactions, and
      nothing else is counted. A message is pending afterwards exactly when one was before or the
      event opened one. */
  lemma StepAccounting(st: State, ev: Event)
    requires Invariant(st) && Step(st, ev).Ok?
    ensures Invariant(Step(st, ev).value)
    ensures Step(st, ev).value.all.nMsgs == st.all.nMsgs + |FinalizedBy(st, ev)|
    ensures Step(st, ev).value.all.nWords == st.all.nWords + WordsIn(FinalizedBy(st, ev))
    ensures Step(st, ev).value.reacted == st.reacted + WithReactions(FinalizedBy(st, ev))
    ensures CreditedWith(st.users, Step(st, ev).value.users, FinalizedBy(st, ev))
    ensures Step(st, ev).value.cur.Some? <==> st.cur.Some? || Opening(st, ev)
  {
    StepInvariant(st, ev);
    if Opening(st, ev) && st.cur.Some? {
      StepCounts(st, ev);
    } else {
      QuietStep(st, ev);
      QuietCounts(st, ev);
    }
  }

  /** The case of `StepAccounting` where a pending message is finalized. */
  lemma StepCounts(st: State, ev: Event)
    requires Opening(st, ev) && st.cur.Some? && Step(st, ev).Ok?
    ensures Step(st, ev).value.all.nMsgs == st.all.nMsgs + |FinalizedBy(st, ev)|
    ensures Step(st, ev).value.all.nWords == st.all.nWords + WordsIn(FinalizedBy(st, ev))
    ensures Step(st, ev).value.reacted == st.reacted + WithReactions(FinalizedBy(st, ev))
    ensures CreditedWith(st.users, Step(st, ev).value.users, FinalizedBy(st, ev))
  {
    FinalizesPending(st, ev);
    SameCounts(st, ev);
    FinalizeCounted(st);
    TallyOne(st, Step(st, ev).value, st.cur.value);
  }

  lemma FinalizesPending(st: State, ev: Event)
    requires Opening(st, ev) && st.cur.Some?
    ensures FinalizedBy(st, ev) == [st.cur.value]
  {
  }

  /** A message open keeps the statistics finalization produced. */
  lemma SameCounts(st: State, ev: Event)
    requires Opening(st, ev) && Step(st, ev).Ok?
    ensures Finalize(st).Ok?
    ensures Step(st, ev).value.all == Finalize(st).value.all
    ensures Step(st, ev).value.users == Finalize(st).value.users
    ensures Step(st, ev).value.reacted == Finalize(st).value.reacted
  {
    assert Step(st, ev) == HandleStartTag(st, ev.tag, ev.attrs);
  }

  /** One message counted, restated with the tallies over the one-message sequence. */
  lemma TallyOne(st: State, st': State, m: Message)
    requires st'.all.nMsgs == st.all.nMsgs + 1
    requires st'.all.nWords == st.all.nWords + CountWords(m.content)
    requires st'.reacted == st.reacted + ReactedEntry(m)
    requires forall name :: MsgsOf(Lookup(st'.users, name))
                            == MsgsOf(Lookup(st.users, name)) + (if m.author == name then 1 else 0)
    ensures st'.all.nMsgs == st.all.nMsgs + |[m]|
    ensures st'.all.nWords == st.all.nWords + WordsIn([m])
    ensures st'.reacted == st.reacted + WithReactions([m])
    ensures CreditedWith(st.users, st'.users, [m])
  {
    assert [m][1..] == [];
    forall name
      ensures MsgsOf(Lookup(st'.users, name)) == MsgsOf(Lookup(st.users, name)) + Authored([m], name)
    {
      assert Authored([m], name) == if m.author == name then 1 else 0;
    }
  }

  /** The case of `StepAccounting` where nothing is finalized. */
  lemma QuietCounts(st: State, ev: Event)
    requires !(Opening(st, ev) && st.cur.Some?) && Step(st, ev).Ok?
    requires Step(st, ev).value.all == st.all && Step(st, ev).value.users == st.users
    requires Step(st, ev).value.reacted == st.reacted
    ensures Step(st, ev).value.all.nMsgs == st.all.nMsgs + |FinalizedBy(st, ev)|
    ensures Step(st, ev).value.all.nWords == st.all.nWords + WordsIn(FinalizedBy(st, ev))
    ensures Step(st, ev).value.reacted == st.reacted + WithReactions(FinalizedBy(st, ev))
    ensures CreditedWith(st.users, Step(st, ev).value.users, FinalizedBy(st, ev))
  {
    assert FinalizedBy(st, ev) == [];
  }

  /** Finalizing a pending message counts it once in the aggregate and once for its author,
      and puts it on the reaction list when it has reactions. */
  lemma FinalizeCounted(st: State)
    requires st.cur.Some? && Finalize(st).Ok?
    ensures var f := Finalize(st).value;
      && f.all.nMsgs == st.all.nMsgs + 1
      && f.all.nWords == st.all.nWords + CountWords(st.cur.value.content)
      && f.reacted == st.reacted + ReactedEntry(st.cur.value)
    ensures var f := Finalize(st).value;
      forall name :: MsgsOf(Lookup(f.users, name))
                     == MsgsOf(Lookup(st.users, name)) + (if st.cur.value.author == name then 1 else 0)
  {
    var m := st.cur.value;
    var slot := Decode(m.datetime).value;
    var f := Finalize(st).value;
    assert FinalizedInto(st, f);
    CountedTallies(st, m, slot, f);
  }

  /** The tallies of `CountedInto`. */
  lemma CountedTallies(st: State, m: Message, slot: Slot, st': State)
    requires CountedInto(st, m, slot, st')
    ensures st'.all.nMsgs == st.all.nMsgs + 1
    ensures st'.all.nWords == st.all.nWords + CountWords(m.content)
    ensures st'.reacted == st.reacted + ReactedEntry(m)
    ensures forall name :: MsgsOf(Lookup(st'.users, name))
                           == MsgsOf(Lookup(st.users, name)) + (if m.author == name then 1 else 0)
  {
    forall name
      ensures MsgsOf(Lookup(st'.users, name))
              == MsgsOf(Lookup(st.users, name)) + (if m.author == name then 1 else 0)
    {
      if name != m.author {
        assert Lookup(st'.users, name) == Lookup(st.users, name);
      }
    }
  }

  /** Any other event leaves the statistics alone, and installs a pending message only by opening one. */
  lemma QuietStep(st: State, ev: Event)
    requires !(Opening(st, ev) && st.cur.Some?) && Step(st, ev).Ok?
    ensures var st' := Step(st, ev).value;
      && st'.all == st.all && st'.users == st.users && st'.reacted == st.reacted
      && (st'.cur.Some? <==> st.cur.Some? || Opening(st, ev))
  {
  }

  /** Author counts compose along a run. */
  lemma CreditedTrans(a: seq<Acc>, b: seq<Acc>, c: seq<Acc>, f: seq<Message>, g: seq<Message>)
    requires CreditedWith(a, b, f) && CreditedWith(b, c, g)
    ensures CreditedWith(a, c, f + g)
  {
    TalliesAppend(f, g);
  }

  /** Reaction-list growth composes along a run. */
  lemma ReactedTrans(a: seq<Message>, b: seq<Message>, c: seq<Message>, f: seq<Message>, g: seq<Message>)
    requires b == a + WithReactions(f) && c == b + WithReactions(g)
    ensures c == a + WithReactions(f + g)
  {
    TalliesAppend(f, g);
  }

  /** The statistics after a successful run: the invariant still holds, and the aggregate has
      counted exactly the messages finalized along the run. */
  lemma {:induction false} RunAccounting(st: State, evs: seq<Event>)
    requires Invariant(st) && Run(st, evs).Ok?
    ensures Invariant(Run(st, evs).value)
    ensures Run(st, evs).value.all.nMsgs == st.all.nMsgs + |Finalized(st, evs)|
    ensures Run(st, evs).value.all.nWords == st.all.nWords + WordsIn(Finalized(st, evs))
    decreases |evs|
  {
    if |evs| > 0 {
      var st1 := Step(st, evs[0]).value;
      var f := FinalizedBy(st, evs[0]);
      var g := Finalized(st1, evs[1..]);
      StepAccounting(st, evs[0]);
      RunAccounting(st1, evs[1..]);
      assert Run(st, evs) == Run(st1, evs[1..]);
      assert Finalized(st, evs) == f + g;
      TalliesAppend(f, g);
    }
  }

  /** After a successful run the reaction list has gained exactly the finalized messages that have
      reactions, in order. */
  lemma {:induction false} RunReacted(st: State, evs: seq<Event>)
    requires Invariant(st) && Run(st, evs).Ok?
    ensures Run(st, evs).value.reacted == st.reacted + WithReactions(Finalized(st, evs))
    decreases |evs|
  {
    if |evs| == 0 {
      assert WithReactions([]) == [];
    } else {
      var st1 := Step(st, evs[0]).value;
      var f := FinalizedBy(st, evs[0]);
      var g := Finalized(st1, evs[1..]);
      StepAccounting(st, evs[0]);
      RunReacted(st1, evs[1..]);
      assert Run(st, evs) == Run(st1, evs[1..]);
      assert Finalized(st, evs) == f + g;
      ReactedTrans(st.reacted, st1.reacted, Run(st, evs).value.reacted, f, g);
    }
  }

  /** After a successful run each author has been credited with exactly the finalized messages
      they wrote. */
  lemma {:induction false} RunCredits(st: State, evs: seq<Event>)
    requires Invariant(st) && Run(st, evs).Ok?
    ensures CreditedWith(st.users, Run(st, evs).value.users, Finalized(st, evs))
    decreases |evs|
  {
    if |evs| > 0 {
      var st1 := Step(st, evs[0]).value;
      var f := FinalizedBy(st, evs[0]);
      var g := Finalized(st1, evs[1..]);
      StepAccounting(st, evs[0]);
      RunCredits(st1, evs[1..]);
      assert Run(st, evs) == Run(st1, evs[1..]);
      assert Finalized(st, evs) == f + g;
      CreditedTrans(st.users, st1.users, Run(st, evs).value.users, f, g);
    }
  }

  /** Every recognised message open but the first finalizes the message pending before it, and
      the first does too when a message was already pending; so after a run the pending
      message is the last one opened, which nothing has counted yet. */
  lemma {:induction false} RunOpens(st: State, evs: seq<Event>)
    requires Invariant(st) && Run(st, evs).Ok?
    ensures Run(st, evs).value.cur.Some? <==> st.cur.Some? || Opens(st, evs) > 0
    ensures |Finalized(st, evs)| == if st.cur.None? && Opens(st, evs) > 0 then Opens(st, evs) - 1 else Opens(st, evs)
    decreases |evs|
  {
    if |evs| > 0 {
      var st1 := Step(st, evs[0]).value;
      StepAccounting(st, evs[0]);
      RunOpens(st1, evs[1..]);
      assert Run(st, evs) == Run(st1, evs[1..]);
      assert Finalized(st, evs) == FinalizedBy(st, evs[0]) + Finalized(st1, evs[1..]);
    }
  }

  /** The state `__init__` leaves satisfies the invariant. */
  lemma InitInvariant()
    ensures Invariant(Init())
  {
    NewAccConsistent(AllName);
    assert Names([]) == [];
  }

  /** What `main` does with the document's events: a fresh parser fed all of them. Nothing
      finalizes the message still pending when the events run out. A document in which no
      message opens leaves the statistics empty. */
  function Parse(evs: seq<Event>): (r: Result<State, Failure>)
    ensures r.Ok? && r.value.cur.None? ==>
              r.value.all.nMsgs == 0 && r.value.users == [] && r.value.reacted == []
  {
    InitInvariant();
    var r := Run(Init(), evs);
    if r.Ok? then RunAccounting(Init(), evs); r else r
  }

  /** The statistics `Parse` leaves satisfy the invariant. */
  lemma ParseInvariant(evs: seq<Event>)
    requires Parse(evs).Ok?
    ensures Invariant(Parse(evs).value)
  {
    InitInvariant();
    RunAccounting(Init(), evs);
  }

  /** `Parse` followed by the finalization of the message left pending: it differs from `Parse`
      only in the statistics, only when a message is left pending, and keeps the invariant. */
  function ParseAll(evs: seq<Event>): (r: Result<State, Failure>)
    ensures r.Ok? ==> Parse(evs).Ok? && Invariant(r.value)
    ensures r.Ok? ==> r.value.open == Parse(evs).value.open && r.value.cur == Parse(evs).value.cur
    ensures Parse(evs).Ok? && Parse(evs).value.cur.None? ==> r == Parse(evs)
  {
    var st :- Parse(evs);
    ParseInvariant(evs);
    Finalize(st)
  }

  /** The message left pending in `st`, if any. */
  function Pending(st: State): seq<Message> {
    if st.cur.Some? then [st.cur.value] else []
  }

  /** The messages of a document: those finalized along the run, then the one left pending. */
  function Messages(evs: seq<Event>): seq<Message>
    requires Parse(evs).Ok?
  {
    Finalized(Init(), evs) + Pending(Parse(evs).value)
  }

  /** As written, the statistics never count the last message of a document: when at least one
      message opened, the message count is one less than the number of opens, and the last
      message is still pending. */
  lemma LastMessageDropped(evs: seq<Event>)
    requires Parse(evs).Ok? && Opens(Init(), evs) > 0
    ensures Parse(evs).value.cur.Some?
    ensures Parse(evs).value.all.nMsgs == Opens(Init(), evs) - 1
    ensures Parse(evs).value.all.nMsgs == |Messages(evs)| - 1
  {
    InitInvariant();
    RunAccounting(Init(), evs);
    RunOpens(Init(), evs);
  }

  /** `ParseAll` is the run followed by one finalization. */
  lemma ParseAllParts(evs: seq<Event>)
    requires ParseAll(evs).Ok?
    ensures Parse(evs).Ok? && ParseAll(evs) == Finalize(Parse(evs).value)
  {
  }

  /** The finalization after the run counts the pending message, if any, once. */
  lemma FinishAccounting(st: State)
    requires Finalize(st).Ok?
    ensures Invariant(st) ==> Invariant(Finalize(st).value)
    ensures Finalize(st).value.all.nMsgs == st.all.nMsgs + |Pending(st)|
    ensures Finalize(st).value.all.nWords == st.all.nWords + WordsIn(Pending(st))
    ensures Finalize(st).value.reacted == st.reacted + WithReactions(Pending(st))
    ensures CreditedWith(st.users, Finalize(st).value.users, Pending(st))
  {
    if st.cur.Some? {
      FinalizeCounted(st);
      TallyOne(st, Finalize(st).value, st.cur.value);
    } else {
      assert WithReactions([]) == [];
    }
  }

  /** Finalizing the pending message after the run counts every message of the document exactly
      once in the aggregate, which then covers precisely the messages that opened. */
  lemma ParseAllCounts(evs: seq<Event>)
    requires ParseAll(evs).Ok?
    ensures Parse(evs).Ok?
    ensures Invariant(ParseAll(evs).value)
    ensures ParseAll(evs).value.all.nMsgs == Opens(Init(), evs) == |Messages(evs)|
  {
    ParseAllParts(evs);
    var st := Parse(evs).value;
    InitInvariant();
    RunAccounting(Init(), evs);
    RunOpens(Init(), evs);
    FinishAccounting(st);
  }

  /** The aggregate word count after the final finalization is the word count of all the
      document's messages. */
  lemma ParseAllWords(evs: seq<Event>)
    requires ParseAll(evs).Ok?
    ensures Parse(evs).Ok?
    ensures ParseAll(evs).value.all.nWords == WordsIn(Messages(evs))
  {
    ParseAllParts(evs);
    var st := Parse(evs).value;
    InitInvariant();
    RunAccounting(Init(), evs);
    FinishAccounting(st);
    WordsCompose(Init().all.nWords, st.all.nWords, ParseAll(evs).value.all.nWords, Finalized(Init(), evs), Pending(st));
  }

  /** Word totals from zero along a run and its final finalization. */
  lemma WordsCompose(w0: nat, w1: nat, w2: nat, f: seq<Message>, g: seq<Message>)
    requires w0 == 0 && w1 == w0 + WordsIn(f) && w2 == w1 + WordsIn(g)
    ensures w2 == WordsIn(f + g)
  {
    WordsAppend(f, g);
  }

  /** After the final finalization the reaction list holds exactly the document's messages that
      have reactions, in document order. */
  lemma ParseAllReacted(evs: seq<Event>)
    requires ParseAll(evs).Ok?
    ensures Parse(evs).Ok?
    ensures ParseAll(evs).value.reacted == WithReactions(Messages(evs))
  {
    ParseAllParts(evs);
    var st := Parse(evs).value;
    InitInvariant();
    RunReacted(Init(), evs);
    FinishAccounting(st);
    ReactedWhole(Init().reacted, st.reacted, ParseAll(evs).value.reacted, Finalized(Init(), evs), Pending(st));
  }

  /** Reaction-list growth from an empty list along a run and its final finalization. */
  lemma ReactedWhole(a: seq<Message>, b: seq<Message>, c: seq<Message>, f: seq<Message>, g: seq<Message>)
    requires a == [] && b == a + WithReactions(f) && c == b + WithReactions(g)
    ensures c == WithReactions(f + g)
  {
    ReactedTrans(a, b, c, f, g);
    assert a + WithReactions(f + g) == WithReactions(f + g);
  }

  /** After the final finalization every author's message count is the number of the document's
      messages they wrote. */
  lemma ParseAllCredits(evs: seq<Event>)
    requires ParseAll(evs).Ok?
    ensures Parse(evs).Ok?
    ensures forall name :: MsgsOf(Lookup(ParseAll(evs).value.users, name)) == Authored(Messages(evs), name)
  {
    ParseAllParts(evs);
    var st := Parse(evs).value;
    InitInvariant();
    RunCredits(Init(), evs);
    FinishAccounting(st);
    CreditedTrans([], st.users, ParseAll(evs).value.users, Finalized(Init(), evs), Pending(st));
    CreditedFromEmpty(ParseAll(evs).value.users, Messages(evs));
  }

  /** Counts credited to an empty registry are the counts themselves. */
  lemma CreditedFromEmpty(users: seq<Acc>, ms: seq<Message>)
    requires CreditedWith([], users, ms)
    ensures forall name :: MsgsOf(Lookup(users, name)) == Authored(ms, name)
  {
    forall name
      ensures MsgsOf(Lookup(users, name)) == Authored(ms, name)
    {
      assert Lookup([], name) == None;
    }
  }

  /** When the final finalization fails where the run itself succeeded, it is the last
      message's timestamp that does not decode. */
  lemma ParseAllFails(evs: seq<Event>)
    requires Parse(evs).Ok? && ParseAll(evs).Err?
    ensures Parse(evs).value.cur.Some?
    ensures ParseAll(evs).error == Decode(Parse(evs).value.cur.value.datetime).error
  {
  }

  // The order of the registry: authors are registered in order of their first counted message.

  /** `ns` with `name` registered: appended unless already present. */
  function Register(ns: seq<string>, name: string): seq<string> {
    if name in ns then ns else ns + [name]
  }

  /** The registry's names after the messages `ms` are counted into a registry named `ns`. */
  function Registered(ns: seq<string>, ms: seq<Message>): seq<string>
    decreases |ms|
  {
    if |ms| == 0 then ns else Registered(Register(ns, ms[0].author), ms[1..])
  }

  lemma {:induction false} RegisteredAppend(ns: seq<string>, f: seq<Message>, g: seq<Message>)
    ensures Registered(ns, f + g) == Registered(Registered(ns, f), g)
    decreases |f|
  {
    if |f| == 0 {
      assert f + g == g;
    } else {
      assert (f + g)[0] == f[0] && (f + g)[1..] == f[1..] + g;
      RegisteredAppend(Register(ns, f[0].author), f[1..], g);
    }
  }

  /** The distinct authors of `ms`, in order of their first message. */
  function Authors(ms: seq<Message>): seq<string> {
    if |ms| == 0 then [] else Register(Authors(ms[..|ms| - 1]), ms[|ms| - 1].author)
  }

  /** The position of the first message of `ms` written by `name`; `|ms|` when there is none. */
  function FirstBy(ms: seq<Message>, name: string): nat {
    if |ms| == 0 then 0 else if ms[0].author == name then 0 else 1 + FirstBy(ms[1..], name)
  }

  lemma {:induction false} FirstByAppend(p: seq<Message>, q: seq<Message>, name: string)
    ensures Authored(p, name) > 0 ==> FirstBy(p + q, name) == FirstBy(p, name) < |p|
    ensures Authored(p, name) == 0 ==> FirstBy(p + q, name) == |p| + FirstBy(q, name)
  {
    if |p| == 0 {
      assert p + q == q;
    } else {
      assert (p + q)[0] == p[0] && (p + q)[1..] == p[1..] + q;
      FirstByAppend(p[1..], q, name);
    }
  }

  /** `Authors` lists exactly the names that wrote a message, each once, ordered by first message. */
  lemma {:induction false} AuthorsInOrder(ms: seq<Message>)
    ensures forall name :: name in Authors(ms) <==> Authored(ms, name) > 0
    ensures forall i, j :: 0 <= i < j < |Authors(ms)| ==> FirstBy(ms, Authors(ms)[i]) < FirstBy(ms, Authors(ms)[j])
    decreases |ms|
  {
    if |ms| > 0 {
      var p, m := ms[..|ms| - 1], ms[|ms| - 1];
      var a := Authors(p);
      assert ms == p + [m];
      AuthorsInOrder(p);
      assert [m][1..] == [];
      forall name
        ensures Authored(ms, name) == Authored(p, name) + (if m.author == name then 1 else 0)
        ensures Authored(p, name) > 0 ==> FirstBy(ms, name) == FirstBy(p, name) < |p|
        ensures Authored(p, name) == 0 ==> FirstBy(ms, name) == |p| + FirstBy([m], name)
      {
        AuthoredAppend(p, [m], name);
        FirstByAppend(p, [m], name);
      }
    }
  }

  /** Counting messages into an empty registry registers exactly `Authors`. */
  lemma {:induction false} AuthorsRegistered(ms: seq<Message>)
    ensures Registered([], ms) == Authors(ms)
    decreases |ms|
  {
    if |ms| > 0 {
      var p, m := ms[..|ms| - 1], ms[|ms| - 1];
      assert ms == p + [m];
      AuthorsRegistered(p);
      RegisteredAppend([], p, [m]);
      assert [m][1..] == [];
    }
  }

  /** Finalizing the pending message registers its author. */
  lemma FinishNames(st: State)
    requires Finalize(st).Ok?
    ensures Names(Finalize(st).value.users) == Registered(Names(st.users), Pending(st))
  {
    if st.cur.Some? {
      assert FinalizedInto(st, Finalize(st).value);
      assert [st.cur.value][1..] == [];
    }
  }

  /** One event registers the author of the message it finalizes, if any. */
  lemma StepNames(st: State, ev: Event)
    requires Step(st, ev).Ok?
    ensures Names(Step(st, ev).value.users) == Registered(Names(st.users), FinalizedBy(st, ev))
  {
    if Opening(st, ev) && st.cur.Some? {
      SameCounts(st, ev);
      FinishNames(st);
    } else {
      QuietStep(st, ev);
    }
  }

  /** After a run the registry's names are the former ones followed by the new authors of the
      finalized messages, in order of first message. */
  lemma {:induction false} RunNames(st: State, evs: seq<Event>)
    requires Run(st, evs).Ok?
    ensures Names(Run(st, evs).value.users) == Registered(Names(st.users), Finalized(st, evs))
    decreases |evs|
  {
    if |evs| > 0 {
      var st1 := Step(st, evs[0]).value;
      StepNames(st, evs[0]);
      RunNames(st1, evs[1..]);
      assert Run(st, evs) == Run(st1, evs[1..]);
      RegisteredAppend(Names(st.users), FinalizedBy(st, evs[0]), Finalized(st1, evs[1..]));
    }
  }

  /** After the final finalization the registry lists the document's authors in order of their
      first message, and a name is registered exactly when it wrote one of the messages. */
  lemma ParseAllAuthors(evs: seq<Event>)
    requires ParseAll(evs).Ok?
    ensures Parse(evs).Ok?
    ensures Names(ParseAll(evs).value.users) == Authors(Messages(evs))
    ensures forall name :: Lookup(ParseAll(evs).value.users, name).Some? <==> Authored(Messages(evs), name) > 0
  {
    ParseAllParts(evs);
    var st := Parse(evs).value;
    var users := ParseAll(evs).value.users;
    RunNames(Init(), evs);
    FinishNames(st);
    assert Names(Init().users) == [];
    RegisteredAppend([], Finalized(Init(), evs), Pending(st));
    AuthorsRegistered(Messages(evs));
    AuthorsInOrder(Messages(evs));
    forall name
      ensures Lookup(users, name).Some? <==> Authored(Messages(evs), name) > 0
    {
      LookupMissing(users, name);
    }
  }

  /** The start tag of the conversation container and of a message, as in an exported chat. */
  const Thread: Event := StartTag("div", [Attr("class", Some("thread"))])
  const Open: Event := StartTag("div", [Attr("class", Some("message"))])

  /** A `thread` div enters the conversation and changes nothing else. */
  lemma ThreadEnters(st: State, ev: Event)
    requires ev.StartTag? && ev.tag == "div" && HasClass(ev.attrs, "thread")
    ensures Step(st, ev) == Ok(st.(open := st.open + {InConvo}))
    ensures !Opening(st, ev)
  {
    assert Step(st, ev) == HandleStartTag(st, ev.tag, ev.attrs);
  }

  /** A `message` div inside the conversation with no message pending installs an empty one. */
  lemma OpenInstalls(st: State, ev: Event)
    requires ev.StartTag? && ev.tag == "div" && HasClass(ev.attrs, "message") && !HasClass(ev.attrs, "thread")
    requires InConvo in st.open && st.cur.None?
    ensures Step(st, ev) == Ok(st.(cur := Some(EmptyMessage), open := st.open + {InMsg}))
    ensures Opening(st, ev)
  {
    assert Step(st, ev) == HandleStartTag(st, ev.tag, ev.attrs);
    assert Finalize(st) == Ok(st);
  }

  /** The attributes of the two example events. */
  lemma ExampleClasses()
    ensures HasClass(Thread.attrs, "thread")
    ensures HasClass(Open.attrs, "message") && !HasClass(Open.attrs, "thread")
  {
    assert "thread" != "message" by { assert |"thread"| != |"message"|; }
  }

  /** A run of two events. */
  lemma RunTwo(s0: State, e0: Event, s1: State, e1: Event, s2: State)
    requires Step(s0, e0) == Ok(s1) && Step(s1, e1) == Ok(s2)
    ensures Run(s0, [e0, e1]) == Ok(s2)
    ensures Opens(s0, [e0, e1]) == (if Opening(s0, e0) then 1 else 0) + (if Opening(s1, e1) then 1 else 0)
  {
    assert [e0, e1][1..] == [e1] && [e1][1..] == [];
    assert Run(s2, []) == Ok(s2);
    assert Run(s1, [e1]) == Ok(s2);
    assert Opens(s1, [e1]) == (if Opening(s1, e1) then 1 else 0) + Opens(s2, []);
  }

  /** A document whose only message opens and is never followed by another one: the run
      succeeds, one message opened, and the statistics count none. */
  lemma OneMessageDropped(evs: seq<Event>)
    requires evs == [Thread, Open]
    ensures Parse(evs).Ok?
    ensures Opens(Init(), evs) == 1
    ensures Parse(evs).value.all.nMsgs == 0
  {
    var s0 := Init();
    ExampleClasses();
    ThreadEnters(s0, Thread);
    var s1 := s0.(open := s0.open + {InConvo});
    OpenInstalls(s1, Open);
    var s2 := s1.(cur := Some(EmptyMessage), open := s1.open + {InMsg});
    RunTwo(s0, Thread, s1, Open, s2);
  }
}
