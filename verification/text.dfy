/** Character classes and whitespace splitting, as Python's `str.split()` with no argument does it. */
module Text {

  /** Python's `str.isspace()`: the separators `str.split()` uses when given no argument. */
  predicate IsSpace(c: char) {
    || ('\U{9}' <= c <= '\U{d}')
    || ('\U{1c}' <= c <= '\U{20}')
    || c == '\U{85}' || c == '\U{a0}' || c == '\U{1680}'
    || ('\U{2000}' <= c <= '\U{200a}')
    || c == '\U{2028}' || c == '\U{2029}' || c == '\U{202f}' || c == '\U{205f}' || c == '\U{3000}'
  }

  /** `\w` of Python's `re`, restricted to ASCII: a letter, a digit or the underscore. */
  predicate IsWordChar(c: char) {
    ('a' <= c <= 'z') || ('A' <= c <= 'Z') || ('0' <= c <= '9') || c == '_'
  }

  /** `\d` of Python's `re`, restricted to ASCII. */
  predicate IsDigit(c: char) {
    '0' <= c <= '9'
  }

  /** The character classes whose maximal runs the parser scans for. */
  datatype Class = NonSpace | Word | Digit

  predicate In(c: char, k: Class) {
    match k
    case NonSpace => !IsSpace(c)
    case Word => IsWordChar(c)
    case Digit => IsDigit(c)
  }


  /** Every character of `s` belongs to class `k`. */
  predicate AllIn(s: string, k: Class) {
    forall i :: 0 <= i < |s| ==> In(s[i], k)
  }

  /** A maximal run of one class and the text after it. */
  datatype Piece = Piece(run: string, rest: string)

  /** The longest prefix of `s` whose characters all belong to class `k`, split off the rest. */
  function Take(s: string, k: Class): (p: Piece)
    ensures s == p.run + p.rest
    ensures AllIn(p.run, k)
    ensures |p.rest| > 0 ==> !In(p.rest[0], k)
  {
    if |s| == 0 || !In(s[0], k) then Piece("", s)
    else
      var p := Take(s[1..], k);
      var run := [s[0]] + p.run;
      assert forall i :: 0 < i < |run| ==> run[i] == p.run[i - 1];
      assert s == [s[0]] + s[1..] == run + p.rest;
      Piece(run, p.rest)
  }

  /** The maximal run is unique: a run of `k` followed by a character outside `k` (or by nothing) is it. */
  lemma {:induction false} TakeOf(w: string, rest: string, k: Class)
    requires AllIn(w, k)
    requires |rest| > 0 ==> !In(rest[0], k)
    ensures Take(w + rest, k) == Piece(w, rest)
  {
    if |w| == 0 {
      assert w + rest == rest;
    } else {
      assert (w + rest)[0] == w[0];
      assert (w + rest)[1..] == w[1..] + rest;
      TakeOf(w[1..], rest, k);
      assert w == [w[0]] + w[1..];
    }
  }

  /** A token of `str.split()`: non-empty and free of whitespace. */
  predicate IsWord(w: string) {
    |w| > 0 && AllIn(w, NonSpace)
  }

  /** `s.split()`: the maximal runs of non-whitespace characters, in order. Every token is a word,
      and there are never more tokens than characters. */
  function Split(s: string): (ws: seq<string>)
    ensures forall i :: 0 <= i < |ws| ==> IsWord(ws[i])
    ensures |ws| <= |s|
    decreases |s|
  {
    if |s| == 0 then []
    else if IsSpace(s[0]) then Split(s[1..])
    else
      var p := Take(s, NonSpace);
      assert p.run[0] == s[0];
      [p.run] + Split(p.rest)
  }

  /** `len(s.split())`, the word count of a message body: zero exactly for a body of whitespace
      only, and at most its length. */
  function CountWords(s: string): (n: nat)
    ensures n == 0 <==> forall i :: 0 <= i < |s| ==> IsSpace(s[i])
    ensures n <= |s|
  {
    SplitNone(s);
    |Split(s)|
  }

  /** A string splits into no words exactly when it is all whitespace. */
  lemma {:induction false} SplitNone(s: string)
    ensures Split(s) == [] <==> forall i :: 0 <= i < |s| ==> IsSpace(s[i])
    decreases |s|
  {
    if |s| > 0 && IsSpace(s[0]) {
      SplitNone(s[1..]);
      assert forall i :: 1 <= i < |s| ==> s[i] == s[1..][i - 1];
    }
  }

  /** `" ".join(ws)`. */
  function Join(ws: seq<string>): string {
    if |ws| == 0 then ""
    else if |ws| == 1 then ws[0]
    else ws[0] + " " + Join(ws[1..])
  }

  /** Leading whitespace is skipped. */
  lemma LeadingSpace(s: string)
    requires |s| > 0 && IsSpace(s[0])
    ensures Split(s) == Split(s[1..])
  {
  }

  /** One unfolding of `Split` on a string that starts with a word. */
  lemma FirstWord(s: string)
    requires |s| > 0 && !IsSpace(s[0])
    ensures Split(s) == [Take(s, NonSpace).run] + Split(Take(s, NonSpace).rest)
  {
  }

  /** Splitting undoes joining words with single spaces. */
  lemma {:induction false} SplitJoin(ws: seq<string>)
    requires forall i :: 0 <= i < |ws| ==> IsWord(ws[i])
    ensures Split(Join(ws)) == ws
  {
    if |ws| == 0 {
    } else {
      var w := ws[0];
      var tail := if |ws| == 1 then "" else " " + Join(ws[1..]);
      assert Join(ws) == w + tail;
      TakeOf(w, tail, NonSpace);
      assert (w + tail)[0] == w[0];
      FirstWord(w + tail);
      if |ws| > 1 {
        SplitJoin(ws[1..]);
        LeadingSpace(tail);
        assert tail[1..] == Join(ws[1..]);
      }
    }
  }

  /** `a` and `b` meet at whitespace (or one of them is empty), so no word straddles them. */
  predicate Separated(a: string, b: string) {
    |a| == 0 || |b| == 0 || IsSpace(a[|a| - 1]) || IsSpace(b[0])
  }

  /** Words never straddle whitespace: strings that meet at whitespace split apart. */
  lemma {:induction false} SplitAppend(a: string, b: string)
    requires Separated(a, b)
    ensures Split(a + b) == Split(a) + Split(b)
    decreases |a|, 1
  {
    if |a| == 0 {
      assert a + b == b;
    } else if IsSpace(a[0]) {
      assert (a + b)[0] == a[0];
      assert (a + b)[1..] == a[1..] + b;
      LeadingSpace(a + b);
      LeadingSpace(a);
      if |a| > 1 {
        assert a[1..][|a[1..]| - 1] == a[|a| - 1];
      }
      SplitAppend(a[1..], b);
    } else {
      SplitAppendWord(a, b);
    }
  }

  /** The case of `SplitAppend` where `a` starts with a word. */
  lemma {:induction false} SplitAppendWord(a: string, b: string)
    requires |a| > 0 && !IsSpace(a[0])
    requires Separated(a, b)
    ensures Split(a + b) == Split(a) + Split(b)
    decreases |a|, 0
  {
    var p := Take(a, NonSpace);
    SeparatedAfterWord(a, b, p);
    var w, r := p.run, p.rest;
    assert a == w + r && a + b == w + (r + b);
    WordThen(w, r + b);
    WordThen(w, r);
    SplitAppend(r, b);
    AppendParts(w, Split(a + b), Split(a), Split(r + b), Split(r), Split(b));
  }

  /** The bookkeeping of `SplitAppendWord`. */
  lemma AppendParts(w: string, sab: seq<string>, sa: seq<string>, srb: seq<string>, sr: seq<string>, sb: seq<string>)
    requires sab == [w] + srb && sa == [w] + sr && srb == sr + sb
    ensures sab == sa + sb
  {
  }

  /** A word followed by whitespace or nothing is the first token. */
  lemma WordThen(w: string, rest: string)
    requires |w| > 0 && AllIn(w, NonSpace)
    requires |rest| > 0 ==> !In(rest[0], NonSpace)
    ensures Split(w + rest) == [w] + Split(rest)
  {
    TakeOf(w, rest, NonSpace);
    assert (w + rest)[0] == w[0];
    FirstWord(w + rest);
  }

  /** After the first word of `a`, what is left of `a` still meets `b` at whitespace, and the word is
      followed by whitespace or nothing. */
  lemma SeparatedAfterWord(a: string, b: string, p: Piece)
    requires |a| > 0 && !IsSpace(a[0])
    requires Separated(a, b)
    requires p == Take(a, NonSpace)
    ensures 0 < |p.run| && |p.rest| < |a|
    ensures Separated(p.rest, b)
    ensures |p.rest + b| > 0 ==> !In((p.rest + b)[0], NonSpace)
  {
    assert a[0] == (p.run + p.rest)[0];
    if |p.rest| > 0 {
      assert p.rest[|p.rest| - 1] == a[|a| - 1];
      assert (p.rest + b)[0] == p.rest[0];
    } else if |b| > 0 {
      assert a[|a| - 1] == p.run[|p.run| - 1];
      assert (p.rest + b)[0] == b[0];
    }
  }

  /** A trailing whitespace character adds no word. */
  lemma SplitSpaceSuffix(c: char)
    requires IsSpace(c)
    ensures Split([c]) == []
  {
    assert [c][1..] == [];
  }

  /** Appending a paragraph `t` and a newline to a body that is empty or ends in whitespace
      adds exactly the words of `t`. */
  lemma {:induction false} CountWordsAppendLine(content: string, t: string)
    requires |content| == 0 || IsSpace(content[|content| - 1])
    ensures CountWords(content + t + "\n") == CountWords(content) + CountWords(t)
  {
    assert content + t + "\n" == content + (t + "\n");
    SplitAppend(content, t + "\n");
    SplitAppend(t, "\n");
    SplitSpaceSuffix('\n');
  }
}
