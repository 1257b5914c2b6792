/** Per-participant statistics (parser.py, `FbChatParticipantData`) and the registry of them keyed
    by author name (`user_data`, a dict whose iteration order is first-insertion order). */
module Accumulator {
  import opened Wrappers

  /** A histogram over the days of the week, Monday first. */
  type Weekly = h: seq<nat> | |h| == 7 witness [0, 0, 0, 0, 0, 0, 0]

  /** A histogram over the hours of the day. */
  type Daily = h: seq<nat> | |h| == 24 witness Zeros(24)

  function Zeros(n: nat): (h: seq<nat>)
    ensures |h| == n
    ensures forall i :: 0 <= i < n ==> h[i] == 0
  {
    seq(n, _ => 0)
  }

  /** The name of the aggregate over all participants. */
  const AllName: string := "__ALL__"

  datatype Acc = Acc(
    name: string,
    nMsgs: nat,
    nWords: nat,
    msgsPerWeekday: Weekly,
    msgsPerHours: Daily,
    wordsPerWeekday: Weekly,
    wordsPerHour: Daily)

  function Sum(h: seq<nat>): nat {
    if |h| == 0 then 0 else h[0] + Sum(h[1..])
  }

  /** Every histogram of `a` sums to the total it breaks down. */
  predicate Consistent(a: Acc) {
    && Sum(a.msgsPerWeekday) == a.nMsgs
    && Sum(a.msgsPerHours) == a.nMsgs
    && Sum(a.wordsPerWeekday) == a.nWords
    && Sum(a.wordsPerHour) == a.nWords
  }

  lemma {:induction false} SumZeros(n: nat)
    ensures Sum(Zeros(n)) == 0
  {
    if n > 0 {
      SumZeros(n - 1);
      assert Zeros(n)[1..] == Zeros(n - 1);
    }
  }

  /** A fresh accumulator: every counter and every bucket at zero. */
  function NewAcc(name: string): (a: Acc)
    ensures a.name == name && a.nMsgs == 0 && a.nWords == 0
    ensures forall i :: 0 <= i < 7 ==> a.msgsPerWeekday[i] == 0 && a.wordsPerWeekday[i] == 0
    ensures forall i :: 0 <= i < 24 ==> a.msgsPerHours[i] == 0 && a.wordsPerHour[i] == 0
  {
    Acc(name, 0, 0, Zeros(7), Zeros(24), Zeros(7), Zeros(24))
  }

  /** A fresh accumulator's histograms agree with its zero totals. */
  lemma NewAccConsistent(name: string)
    ensures Consistent(NewAcc(name))
  {
    SumZeros(7);
    SumZeros(24);
  }

  /** `after` is `before` with bucket `i` raised by `d` and every other bucket as it was. */
  predicate Bumped(before: seq<nat>, after: seq<nat>, i: nat, d: nat) {
    && |after| == |before|
    && i < |before|
    && after[i] == before[i] + d
    && forall j :: 0 <= j < |before| && j != i ==> after[j] == before[j]
  }

  /** Raising one bucket by `d` raises the sum by `d`. */
  lemma {:induction false} SumBumped(before: seq<nat>, after: seq<nat>, i: nat, d: nat)
    requires Bumped(before, after, i, d)
    ensures Sum(after) == Sum(before) + d
  {
    if i == 0 {
      assert after[1..] == before[1..];
    } else {
      SumBumped(before[1..], after[1..], i - 1, d);
    }
  }

  function Bump(h: seq<nat>, i: nat, d: nat): (r: seq<nat>)
    requires i < |h|
    ensures Bumped(h, r, i, d)
    ensures Sum(r) == Sum(h) + d
  {
    var r := h[i := h[i] + d];
    SumBumped(h, r, i, d);
    r
  }

  /** `after` is `before` with one message of `words` words counted on `weekday` at `hour`: both
      totals rise, and in each of the four histograms exactly the one bucket for that weekday or hour
      rises, by 1 for the message histograms and by `words` for the word histograms. */
  predicate Counted(before: Acc, after: Acc, weekday: nat, hour: nat, words: nat) {
    && after.name == before.name
    && after.nMsgs == before.nMsgs + 1
    && after.nWords == before.nWords + words
    && Bumped(before.msgsPerWeekday, after.msgsPerWeekday, weekday, 1)
    && Bumped(before.msgsPerHours, after.msgsPerHours, hour, 1)
    && Bumped(before.wordsPerWeekday, after.wordsPerWeekday, weekday, words)
    && Bumped(before.wordsPerHour, after.wordsPerHour, hour, words)
  }

  /** The paired increments for one message of `words` words sent on `weekday` at `hour`. */
  function Record(a: Acc, weekday: nat, hour: nat, words: nat): (r: Acc)
    requires weekday < 7 && hour < 24
    ensures Counted(a, r, weekday, hour, words)
    ensures Consistent(a) ==> Consistent(r)
  {
    Acc(a.name, a.nMsgs + 1, a.nWords + words,
        Bump(a.msgsPerWeekday, weekday, 1), Bump(a.msgsPerHours, hour, 1),
        Bump(a.wordsPerWeekday, weekday, words), Bump(a.wordsPerHour, hour, words))
  }

  // The registry: the accumulators of the authors seen so far, in order of first message.

  function Names(users: seq<Acc>): (ns: seq<string>)
    ensures |ns| == |users|
    ensures forall i :: 0 <= i < |users| ==> ns[i] == users[i].name
  {
    if |users| == 0 then [] else [users[0].name] + Names(users[1..])
  }

  /** No name is registered twice, as in a dict. */
  predicate Distinct(ns: seq<string>) {
    forall i, j :: 0 <= i < j < |ns| ==> ns[i] != ns[j]
  }

  /** `user_data.get(name)`. */
  function Lookup(users: seq<Acc>, name: string): (r: Option<Acc>)
    ensures r.Some? ==> r.value.name == name
  {
    if |users| == 0 then None
    else if users[0].name == name then Some(users[0])
    else Lookup(users[1..], name)
  }

  /** A name is missing from the registry exactly when it is not among its names. */
  lemma {:induction false} LookupMissing(users: seq<Acc>, name: string)
    ensures Lookup(users, name).None? <==> name !in Names(users)
  {
    if |users| > 0 {
      LookupMissing(users[1..], name);
      ConsNames(users[0], users[1..]);
      assert users == [users[0]] + users[1..];
    }
  }

  /** An entry found in a consistent registry is consistent. */
  lemma {:induction false} LookupConsistent(users: seq<Acc>, name: string)
    ensures AllConsistent(users) && Lookup(users, name).Some? ==> Consistent(Lookup(users, name).value)
  {
    if |users| > 0 && users[0].name != name {
      LookupConsistent(users[1..], name);
    }
  }

  function TotalMsgs(users: seq<Acc>): nat {
    if |users| == 0 then 0 else users[0].nMsgs + TotalMsgs(users[1..])
  }

  function TotalWords(users: seq<Acc>): nat {
    if |users| == 0 then 0 else users[0].nWords + TotalWords(users[1..])
  }

  predicate AllConsistent(users: seq<Acc>) {
    forall i :: 0 <= i < |users| ==> Consistent(users[i])
  }

  /** The value an absent entry counts as in the totals. */
  function MsgsOf(a: Option<Acc>): nat {
    if a.Some? then a.value.nMsgs else 0
  }

  function WordsOf(a: Option<Acc>): nat {
    if a.Some? then a.value.nWords else 0
  }

  /** Store `a` under its name: it replaces the entry of that name, or is appended when there is
      none. Every other name keeps its entry, and the order of first insertion is kept. */
  function Store(users: seq<Acc>, a: Acc): (r: seq<Acc>)
    ensures Lookup(r, a.name) == Some(a)
    ensures forall other :: other != a.name ==> Lookup(r, other) == Lookup(users, other)
    ensures Names(r) == if a.name in Names(users) then Names(users) else Names(users) + [a.name]
  {
    if |users| == 0 then
      ConsNames(a, []);
      ConsLookup(a, []);
      [a]
    else if users[0].name == a.name then
      ConsNames(a, users[1..]);
      ConsNames(users[0], users[1..]);
      ConsLookup(a, users[1..]);
      ConsLookup(users[0], users[1..]);
      [a] + users[1..]
    else
      var t := Store(users[1..], a);
      ConsNames(users[0], t);
      ConsNames(users[0], users[1..]);
      ConsLookup(users[0], t);
      ConsLookup(users[0], users[1..]);
      [users[0]] + t
  }

  /** Storing `a` trades the entry it replaces for `a` in the registry's totals, and keeps every
      entry's histograms consistent with its totals when `a`'s are. */
  lemma {:induction false} StoreTotals(users: seq<Acc>, a: Acc)
    ensures TotalMsgs(Store(users, a)) + MsgsOf(Lookup(users, a.name)) == TotalMsgs(users) + a.nMsgs
    ensures TotalWords(Store(users, a)) + WordsOf(Lookup(users, a.name)) == TotalWords(users) + a.nWords
    ensures AllConsistent(users) && Consistent(a) ==> AllConsistent(Store(users, a))
  {
    var r := Store(users, a);
    if |users| == 0 {
      ConsTotals(a, []);
      assert r == [a] + [];
    } else if users[0].name == a.name {
      ConsTotals(a, users[1..]);
      ConsTotals(users[0], users[1..]);
      assert users == [users[0]] + users[1..];
    } else {
      StoreTotals(users[1..], a);
      ConsTotals(users[0], r[1..]);
      ConsTotals(users[0], users[1..]);
      assert users == [users[0]] + users[1..];
      assert r == [users[0]] + r[1..];
    }
  }

  /** Get-or-create the accumulator of `name` (`user_data.get`, then a fresh one registered last)
      and record one message in it. */
  function Credit(users: seq<Acc>, name: string, weekday: nat, hour: nat, words: nat): (r: seq<Acc>)
    requires weekday < 7 && hour < 24
    ensures Lookup(r, name).Some?
    ensures Counted(Lookup(users, name).GetOr(NewAcc(name)), Lookup(r, name).value, weekday, hour, words)
    ensures forall other :: other != name ==> Lookup(r, other) == Lookup(users, other)
    ensures Names(r) == if name in Names(users) then Names(users) else Names(users) + [name]
    ensures TotalMsgs(r) == TotalMsgs(users) + 1
    ensures TotalWords(r) == TotalWords(users) + words
    ensures AllConsistent(users) ==> AllConsistent(r)
    ensures Distinct(Names(users)) ==> Distinct(Names(r))
  {
    var found := Lookup(users, name);
    var before := found.GetOr(NewAcc(name));
    LookupConsistent(users, name);
    NewAccConsistent(name);
    assert before.nMsgs == MsgsOf(found) && before.nWords == WordsOf(found);
    var after := Record(before, weekday, hour, words);
    StoreTotals(users, after);
    DistinctAppend(Names(users), name);
    Store(users, after)
  }

  /** How the registry functions see an entry put in front of a registry. */
  lemma ConsNames(u: Acc, t: seq<Acc>)
    ensures Names([u] + t) == [u.name] + Names(t)
  {
    assert ([u] + t)[1..] == t;
  }

  lemma ConsLookup(u: Acc, t: seq<Acc>)
    ensures forall n :: Lookup([u] + t, n) == if u.name == n then Some(u) else Lookup(t, n)
  {
    assert ([u] + t)[1..] == t;
  }

  lemma ConsTotals(u: Acc, t: seq<Acc>)
    ensures TotalMsgs([u] + t) == u.nMsgs + TotalMsgs(t)
    ensures TotalWords([u] + t) == u.nWords + TotalWords(t)
    ensures AllConsistent([u] + t) <==> Consistent(u) && AllConsistent(t)
  {
    assert ([u] + t)[1..] == t;
    assert forall i :: 0 < i < |t| + 1 ==> ([u] + t)[i] == t[i - 1];
  }

  /** Registering a name that is not yet present keeps the names distinct. */
  lemma DistinctAppend(ns: seq<string>, name: string)
    ensures Distinct(ns) && name !in ns ==> Distinct(ns + [name])
  {
  }
}
