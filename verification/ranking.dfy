/** The two rankings `main` prints (parser.py lines 154 and 175-178): Python's `list.sort` with a key
    and `reverse=True`, a stable sort into non-increasing key order, and the report built from a
    whole document. */
module Ranking {
  import opened Wrappers
  import opened Accumulator
  import opened Parser
  import opened Runs

  /** Every element's key is at least that of every element after it. */
  predicate NonIncreasing<T>(s: seq<T>, key: T -> int) {
    forall i, j :: 0 <= i < j < |s| ==> key(s[i]) >= key(s[j])
  }

  /** The elements of `s` whose key is `k`, in their order in `s`. */
  function WithKey<T>(s: seq<T>, key: T -> int, k: int): seq<T> {
    if |s| == 0 then [] else (if key(s[0]) == k then [s[0]] else []) + WithKey(s[1..], key, k)
  }

  /** `x` placed before the first element whose key does not exceed its own: after every element
      with a larger key, before every element with an equal or smaller one. */
  function Insert<T>(x: T, s: seq<T>, key: T -> int): (r: seq<T>)
    ensures multiset(r) == multiset(s) + multiset{x}
    ensures forall i :: 0 <= i < |r| ==> r[i] == x || r[i] in s
  {
    if |s| == 0 || key(s[0]) <= key(x) then [x] + s
    else
      var t := Insert(x, s[1..], key);
      assert s == [s[0]] + s[1..];
      assert forall i :: 1 <= i < |t| + 1 ==> ([s[0]] + t)[i] == t[i - 1];
      [s[0]] + t
  }

  /** `sorted(s, key=key, reverse=True)`: a permutation of `s`. */
  function SortDesc<T>(s: seq<T>, key: T -> int): (r: seq<T>)
    ensures multiset(r) == multiset(s)
  {
    if |s| == 0 then []
    else
      assert s == [s[0]] + s[1..];
      Insert(s[0], SortDesc(s[1..], key), key)
  }

  /** Inserting into a non-increasing sequence keeps it non-increasing. */
  lemma {:induction false} InsertOrdered<T>(x: T, s: seq<T>, key: T -> int)
    requires NonIncreasing(s, key)
    ensures NonIncreasing(Insert(x, s, key), key)
  {
    if |s| > 0 && key(s[0]) > key(x) {
      var t := Insert(x, s[1..], key);
      InsertOrdered(x, s[1..], key);
      forall i | 0 <= i < |t|
        ensures key(s[0]) >= key(t[i])
      {
        if t[i] != x {
          var j :| 0 <= j < |s[1..]| && s[1..][j] == t[i];
          assert s[j + 1] == t[i];
        }
      }
      assert Insert(x, s, key) == [s[0]] + t;
    }
  }

  /** The result of the sort is in non-increasing key order. */
  lemma {:induction false} SortOrdered<T>(s: seq<T>, key: T -> int)
    ensures NonIncreasing(SortDesc(s, key), key)
  {
    if |s| > 0 {
      SortOrdered(s[1..], key);
      InsertOrdered(s[0], SortDesc(s[1..], key), key);
    }
  }

  /** Inserting `x` puts it in front of every element of the same key. */
  lemma {:induction false} InsertWithKey<T>(x: T, s: seq<T>, key: T -> int, k: int)
    ensures WithKey(Insert(x, s, key), key, k) == (if key(x) == k then [x] else []) + WithKey(s, key, k)
  {
    var here := if key(x) == k then [x] else [];
    if |s| == 0 || key(s[0]) <= key(x) {
      assert ([x] + s)[1..] == s;
    } else {
      var t := Insert(x, s[1..], key);
      InsertWithKey(x, s[1..], key, k);
      assert ([s[0]] + t)[1..] == t;
      if key(x) == k {
        assert key(s[0]) != k;
      }
      assert WithKey(s, key, k) == (if key(s[0]) == k then [s[0]] else []) + WithKey(s[1..], key, k);
    }
  }

  /** The sort is stable: the elements of each key keep their relative order. */
  lemma {:induction false} SortStable<T>(s: seq<T>, key: T -> int, k: int)
    ensures WithKey(SortDesc(s, key), key, k) == WithKey(s, key, k)
  {
    if |s| > 0 {
      SortStable(s[1..], key, k);
      InsertWithKey(s[0], SortDesc(s[1..], key), key, k);
    }
  }

  /** The sort key of line 154. */
  function ReactionCount(m: Message): int {
    m.reactions
  }

  /** The sort key of line 178. */
  function MessageCount(a: Acc): int {
    a.nMsgs
  }

  /** What the report files are written from: the aggregate, the messages with reactions ranked by
      reaction count, and the participants ranked by message count. */
  datatype Report = Report(all: Acc, mostReacted: seq<Message>, participants: seq<Acc>)

  /** The two sorts of `main`, applied to the parser's final state: the aggregate as it is, and
      the two lists reordered, nothing added or lost. */
  function Rank(st: State): (r: Report)
    ensures r.all == st.all
    ensures multiset(r.mostReacted) == multiset(st.reacted) && multiset(r.participants) == multiset(st.users)
  {
    Report(st.all, SortDesc(st.reacted, ReactionCount), SortDesc(st.users, MessageCount))
  }

  /** Parse a document, finalize its last message, and rank. The report exists exactly when the
      document parses and its last message finalizes, and its totals cover every message of the
      document. */
  function Analyze(evs: seq<Event>): (r: Result<Report, Failure>)
    ensures r.Ok? <==> ParseAll(evs).Ok?
    ensures r.Ok? ==> Parse(evs).Ok? && r.value.all.nMsgs == |Messages(evs)|
    ensures r.Ok? ==> r.value.all.nWords == WordsIn(Messages(evs))
  {
    var st :- ParseAll(evs);
    ParseAllCounts(evs);
    ParseAllWords(evs);
    Ok(Rank(st))
  }

  /** The ranked reaction list is the parser's reaction list, most reactions first, ties in the
      order the messages were finalized. */
  lemma RankedReactions(st: State)
    ensures multiset(Rank(st).mostReacted) == multiset(st.reacted)
    ensures NonIncreasing(Rank(st).mostReacted, ReactionCount)
    ensures forall k :: WithKey(Rank(st).mostReacted, ReactionCount, k) == WithKey(st.reacted, ReactionCount, k)
  {
    SortOrdered(st.reacted, ReactionCount);
    forall k
      ensures WithKey(Rank(st).mostReacted, ReactionCount, k) == WithKey(st.reacted, ReactionCount, k)
    {
      SortStable(st.reacted, ReactionCount, k);
    }
  }

  /** The ranked participant list is the registry, most messages first, ties in registry order. */
  lemma Participants(st: State)
    ensures multiset(Rank(st).participants) == multiset(st.users)
    ensures NonIncreasing(Rank(st).participants, MessageCount)
    ensures forall k :: WithKey(Rank(st).participants, MessageCount, k) == WithKey(st.users, MessageCount, k)
  {
    SortOrdered(st.users, MessageCount);
    forall k
      ensures WithKey(Rank(st).participants, MessageCount, k) == WithKey(st.users, MessageCount, k)
    {
      SortStable(st.users, MessageCount, k);
    }
  }

  /** The ranked message list is the document's messages with reactions, most reactions first,
      ties in document order. */
  lemma MostReacted(evs: seq<Event>)
    requires Analyze(evs).Ok?
    ensures Parse(evs).Ok?
    ensures multiset(Analyze(evs).value.mostReacted) == multiset(WithReactions(Messages(evs)))
    ensures NonIncreasing(Analyze(evs).value.mostReacted, ReactionCount)
    ensures forall k :: WithKey(Analyze(evs).value.mostReacted, ReactionCount, k)
                        == WithKey(WithReactions(Messages(evs)), ReactionCount, k)
  {
    ParseAllReacted(evs);
    RankedReactions(ParseAll(evs).value);
  }

  /** The ranked participants of a document: the registry, most messages first, ties in registry
      order, where the registry lists the document's authors in order of their first message
      (`Runs.AuthorsInOrder` states that order by message position). */
  lemma ParticipantOrder(evs: seq<Event>)
    requires Analyze(evs).Ok?
    ensures ParseAll(evs).Ok? && Parse(evs).Ok?
    ensures Names(ParseAll(evs).value.users) == Authors(Messages(evs))
    ensures multiset(Analyze(evs).value.participants) == multiset(ParseAll(evs).value.users)
    ensures NonIncreasing(Analyze(evs).value.participants, MessageCount)
    ensures forall k :: WithKey(Analyze(evs).value.participants, MessageCount, k)
                        == WithKey(ParseAll(evs).value.users, MessageCount, k)
  {
    ParseAllAuthors(evs);
    Participants(ParseAll(evs).value);
  }
}
