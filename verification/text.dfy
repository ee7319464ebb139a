/**
 * Ruby string and array primitives the client library leans on, restated
 * over `seq<char>`.  Strings read from a socket are binary strings in Ruby,
 * so case conversion touches ASCII letters only.
 */
module Text {

  datatype Option<+T> = None | Some(value: T)

  /** The outcome of a Ruby call that may raise: every raise inside an
      event handler ends the client's thread, so no state survives it. */
  datatype Result<+T> = Ok(value: T) | Raised(error: string)

  /** Ruby's `\s`: space, tab, line feed, vertical tab, form feed, return. */
  predicate IsSpace(c: char) {
    c == ' ' || c == '\t' || c == '\n' || c == '\U{B}' || c == '\U{C}' || c == '\r'
  }

  /** Ruby's `\w` on a binary string: ASCII letters, digits and underscore. */
  predicate IsWord(c: char) {
    ('a' <= c <= 'z') || ('A' <= c <= 'Z') || ('0' <= c <= '9') || c == '_'
  }

  predicate NoSpace(s: string) {
    forall i :: 0 <= i < |s| ==> !IsSpace(s[i])
  }

  predicate NoNewline(s: string) {
    forall i :: 0 <= i < |s| ==> s[i] != '\n'
  }

  function LowerChar(c: char): char {
    if 'A' <= c <= 'Z' then (c as int + 32) as char else c
  }

  function UpperChar(c: char): char {
    if 'a' <= c <= 'z' then (c as int - 32) as char else c
  }

  /** `String#downcase` on a binary string. */
  function Downcase(s: string): (r: string)
    ensures |r| == |s|
    ensures forall i :: 0 <= i < |s| ==> r[i] == LowerChar(s[i])
  {
    seq(|s|, i requires 0 <= i < |s| => LowerChar(s[i]))
  }

  /** `String#upcase` on a binary string. */
  function Upcase(s: string): (r: string)
    ensures |r| == |s|
    ensures forall i :: 0 <= i < |s| ==> r[i] == UpperChar(s[i])
  {
    seq(|s|, i requires 0 <= i < |s| => UpperChar(s[i]))
  }

  function Last<T>(s: seq<T>): T
    requires |s| > 0
  {
    s[|s| - 1]
  }

  predicate EndsWithNewline(s: string) {
    |s| > 0 && Last(s) == '\n'
  }

  /** At most one newline, and only as the last character. */
  predicate OneLine(s: string) {
    |s| == 0 || NoNewline(s[..|s| - 1])
  }

  /** The string ends in a carriage return and a line feed. */
  predicate EndsWithCrlf(s: string) {
    |s| >= 2 && s[|s| - 2..] == "\r\n"
  }

  /** `String#chomp` with no argument: drops one trailing "\r\n", "\n" or "\r". */
  function Chomp(s: string): (r: string)
    ensures r <= s && |s| - 2 <= |r|
    ensures OneLine(s) ==> NoNewline(r)
    ensures EndsWithCrlf(s) ==> r + "\r\n" == s
    ensures !EndsWithCrlf(s) && |s| > 0 && (Last(s) == '\n' || Last(s) == '\r') ==> r + [Last(s)] == s
    ensures (|s| == 0 || (Last(s) != '\n' && Last(s) != '\r')) ==> r == s
  {
    if EndsWithCrlf(s) then
      assert s == s[..|s| - 2] + s[|s| - 2..];
      s[..|s| - 2]
    else if |s| >= 1 && (Last(s) == '\n' || Last(s) == '\r') then
      assert s == s[..|s| - 1] + [Last(s)];
      s[..|s| - 1]
    else s
  }

  /** `String#chop`: drops the last character, or a trailing "\r\n" as one. */
  function Chop(s: string): (r: string)
    ensures r <= s
    ensures EndsWithCrlf(s) ==> r + "\r\n" == s
    ensures !EndsWithCrlf(s) && |s| > 0 ==> r + [Last(s)] == s
    ensures |s| == 0 ==> r == s
  {
    if EndsWithCrlf(s) then
      assert s == s[..|s| - 2] + s[|s| - 2..];
      s[..|s| - 2]
    else if |s| >= 1 then
      assert s == s[..|s| - 1] + [Last(s)];
      s[..|s| - 1]
    else s
  }

  /** Length of the run of non-space characters that starts `s`. */
  function TokenLength(s: string): (n: nat)
    ensures n <= |s|
    ensures NoSpace(s[..n])
    ensures n < |s| ==> IsSpace(s[n])
  {
    if |s| == 0 || IsSpace(s[0]) then 0 else 1 + TokenLength(s[1..])
  }

  /** Where a character-by-character reading of a string stands: before
      the first word, inside a word, or in the whitespace after a word. */
  datatype Gap = Leading | InWord | AfterWord

  /** The words of `s` read one character at a time: leading and trailing
      whitespace is dropped, and each inner run of whitespace becomes one
      space. */
  function Squish(s: string, at: Gap): string
    decreases |s|
  {
    if |s| == 0 then ""
    else if IsSpace(s[0]) then Squish(s[1..], if at == Leading then Leading else AfterWord)
    else (if at == AfterWord then " " else "") + [s[0]] + Squish(s[1..], InWord)
  }

  /** `String#split` with no argument: the maximal runs of non-space
      characters, in order.  Joined with single spaces they give the
      squished text, and by `SplitJoin` no other list of nonempty
      space-free words does. */
  function Split(s: string): (r: seq<string>)
    ensures forall i :: 0 <= i < |r| ==> |r[i]| > 0 && NoSpace(r[i])
    decreases |s|
  {
    if |s| == 0 then []
    else if IsSpace(s[0]) then Split(s[1..])
    else
      var n := TokenLength(s);
      [s[..n]] + Split(s[n..])
  }

  /** The words, joined by single spaces, are the input with leading and
      trailing whitespace dropped and every inner run squeezed to one space. */
  lemma {:induction false} SplitSquish(s: string)
    ensures Join(Split(s), " ") == Squish(s, Leading)
    decreases |s|
  {
    if |s| > 0 {
      if IsSpace(s[0]) {
        SplitSquish(s[1..]);
      } else {
        var n := TokenLength(s);
        SplitSquish(s[n..]);
        SplitStep(s, n, Split(s[n..]));
      }
    }
  }

  lemma SplitStep(s: string, n: nat, rest: seq<string>)
    requires 0 < n <= |s| && NoSpace(s[..n]) && (n < |s| ==> IsSpace(s[n]))
    requires forall i :: 0 <= i < |rest| ==> |rest[i]| > 0
    requires Join(rest, " ") == Squish(s[n..], Leading)
    ensures Join([s[..n]] + rest, " ") == Squish(s, Leading)
  {
    var w, t := s[..n], s[n..];
    SquishEnters(s, w, t);
    SquishAfterWord(t);
    JoinCons(w, rest);
    var tail := if Squish(t, Leading) == "" then "" else " " + Squish(t, Leading);
    assert Squish(s, Leading) == w + tail;
    assert Join([w] + rest, " ") == w + tail;
  }

  /** A string that starts with a word is that word followed by the rest
      read from inside the word. */
  lemma SquishEnters(s: string, w: string, t: string)
    requires |w| > 0 && NoSpace(w) && s == w + t
    ensures Squish(s, Leading) == w + Squish(t, InWord)
  {
    assert s[1..] == w[1..] + t;
    SquishWord(w[1..], t);
    assert w == [s[0]] + w[1..];
  }

  /** Inside a word, the rest of the word is copied. */
  lemma {:induction false} SquishWord(w: string, t: string)
    requires NoSpace(w)
    ensures Squish(w + t, InWord) == w + Squish(t, InWord)
    decreases |w|
  {
    if |w| > 0 {
      assert (w + t)[1..] == w[1..] + t;
      SquishWord(w[1..], t);
      assert w == [w[0]] + w[1..];
    } else {
      assert w + t == t;
    }
  }

  /** At the end of a word, the next word (if any) is preceded by one space. */
  lemma SquishAfterWord(t: string)
    requires |t| == 0 || IsSpace(t[0])
    ensures Squish(t, InWord) == if Squish(t, Leading) == "" then "" else " " + Squish(t, Leading)
  {
    if |t| > 0 {
      SquishGap(t[1..]);
    }
  }

  lemma {:induction false} SquishGap(t: string)
    ensures Squish(t, AfterWord) == if Squish(t, Leading) == "" then "" else " " + Squish(t, Leading)
    decreases |t|
  {
    if |t| > 0 && IsSpace(t[0]) {
      SquishGap(t[1..]);
    }
  }

  lemma JoinCons(w: string, rest: seq<string>)
    requires forall i :: 0 <= i < |rest| ==> |rest[i]| > 0
    ensures Join([w] + rest, " ") == if Join(rest, " ") == "" then w else w + " " + Join(rest, " ")
  {
    if |rest| > 0 {
      assert ([w] + rest)[1..] == rest;
      JoinStarts(rest);
    }
  }

  lemma JoinStarts(ts: seq<string>)
    requires |ts| > 0 && |ts[0]| > 0
    ensures Join(ts, " ") != ""
  {
  }

  /** `Array#join(sep)`. */
  function Join(ts: seq<string>, sep: string): string {
    if |ts| == 0 then ""
    else if |ts| == 1 then ts[0]
    else ts[0] + sep + Join(ts[1..], sep)
  }

  /** Every field between occurrences of `sep`, empty ones included. */
  function Fields(s: string, sep: char): (r: seq<string>)
    ensures |r| > 0
    ensures forall i :: 0 <= i < |r| ==> sep !in r[i]
    decreases |s|
  {
    if |s| == 0 then [""]
    else if s[0] == sep then [""] + Fields(s[1..], sep)
    else var rest := Fields(s[1..], sep); [[s[0]] + rest[0]] + rest[1..]
  }

  function DropTrailingEmpty(fs: seq<string>): (r: seq<string>)
    ensures r <= fs
    ensures |r| > 0 ==> |Last(r)| > 0
    ensures forall i :: |r| <= i < |fs| ==> fs[i] == ""
  {
    if |fs| == 0 || |Last(fs)| > 0 then fs else DropTrailingEmpty(fs[..|fs| - 1])
  }

  /** `String#split(sep)` with a one-character separator: trailing empty
      fields are removed, so `"".split("=")` is `[]` and `"a=".split("=")` is `["a"]`. */
  function SplitOn(s: string, sep: char): seq<string> {
    DropTrailingEmpty(Fields(s, sep))
  }

  /** `String#split("")`: one string per character. */
  function Chars(s: string): (r: seq<string>)
    ensures |r| == |s|
    ensures forall i :: 0 <= i < |s| ==> r[i] == [s[i]]
  {
    seq(|s|, i requires 0 <= i < |s| => [s[i]])
  }

  /** `a` is `b` with some elements left out and the rest kept in order. */
  predicate Subseq<T(==)>(a: seq<T>, b: seq<T>)
    decreases |b|
  {
    |a| == 0 || (|b| > 0 && ((a[0] == b[0] && Subseq(a[1..], b[1..])) || Subseq(a, b[1..])))
  }

  /** `Array#delete(x)`: every element equal to `x` is removed, and every
      other element stays, as often as it occurred and in order. */
  function Remove<T(==)>(xs: seq<T>, x: T): (r: seq<T>)
    ensures Subseq(r, xs)
    ensures multiset(r) == multiset(xs)[x := 0]
    ensures x !in r
    ensures forall i :: 0 <= i < |r| ==> r[i] in xs
    ensures forall i :: 0 <= i < |xs| && xs[i] != x ==> xs[i] in r
    ensures |r| <= |xs|
  {
    if |xs| == 0 then []
    else
      var rest := Remove(xs[1..], x);
      if xs[0] == x then
        RemoveDrops(xs, x, rest);
        rest
      else
        RemoveKeeps(xs, x, rest);
        [xs[0]] + rest
  }

  /** Everything `Remove` promises about `r` as the result for `xs`. */
  predicate RemovedFrom<T(==)>(r: seq<T>, xs: seq<T>, x: T) {
    && Subseq(r, xs)
    && multiset(r) == multiset(xs)[x := 0]
    && x !in r
    && (forall i :: 0 <= i < |r| ==> r[i] in xs)
    && (forall i :: 0 <= i < |xs| && xs[i] != x ==> xs[i] in r)
    && |r| <= |xs|
  }

  lemma RemoveDrops<T>(xs: seq<T>, x: T, rest: seq<T>)
    requires |xs| > 0 && xs[0] == x && RemovedFrom(rest, xs[1..], x)
    ensures RemovedFrom(rest, xs, x)
  {
    assert xs == [xs[0]] + xs[1..];
  }

  lemma RemoveKeeps<T>(xs: seq<T>, x: T, rest: seq<T>)
    requires |xs| > 0 && xs[0] != x && RemovedFrom(rest, xs[1..], x)
    ensures RemovedFrom([xs[0]] + rest, xs, x)
  {
    assert xs == [xs[0]] + xs[1..];
    assert ([xs[0]] + rest)[1..] == rest;
  }

  /** The i-th element, or nil past the end (`Array#[]`). */
  function At<T>(xs: seq<T>, i: nat): Option<T> {
    if i < |xs| then Some(xs[i]) else None
  }

  /** `Array#shift`: the first element (nil when empty) and the rest. */
  function Shift<T>(xs: seq<T>): (r: (Option<T>, seq<T>))
    ensures |xs| > 0 ==> r.0 == Some(xs[0]) && r.1 == xs[1..]
    ensures |xs| == 0 ==> r.0 == None && r.1 == []
  {
    if |xs| == 0 then (None, []) else (Some(xs[0]), xs[1..])
  }

  /** The values of calls made one after the other, where a raise ends the
      run: the error is the first raise's, and without one every value is
      kept, in order. */
  function Collect<T>(rs: seq<Result<T>>): (r: Result<seq<T>>)
    ensures r.Raised? <==> exists i :: 0 <= i < |rs| && rs[i].Raised?
    ensures r.Raised? ==> exists i :: 0 <= i < |rs| && rs[i] == Raised(r.error) && forall j :: 0 <= j < i ==> rs[j].Ok?
    ensures r.Ok? ==> |r.value| == |rs| && forall i :: 0 <= i < |rs| ==> rs[i] == Ok(r.value[i])
    decreases |rs|
  {
    if |rs| == 0 then Ok([])
    else match rs[0]
      case Raised(e) => Raised(e)
      case Ok(v) =>
        var tail := rs[1..];
        assert forall i :: 1 <= i < |rs| ==> rs[i] == tail[i - 1];
        match Collect(tail)
        case Raised(e) =>
          var i :| 0 <= i < |tail| && tail[i] == Raised(e) && forall j :: 0 <= j < i ==> tail[j].Ok?;
          assert rs[i + 1] == Raised(e);
          Raised(e)
        case Ok(vs) => Ok([v] + vs)
  }

  /** Splitting a space-joined list of tokens gives the tokens back. */
  lemma {:induction false} SplitJoin(ts: seq<string>)
    requires forall i :: 0 <= i < |ts| ==> |ts[i]| > 0 && NoSpace(ts[i])
    ensures Split(Join(ts, " ")) == ts
    decreases |ts|
  {
    if |ts| == 0 {
    } else if |ts| == 1 {
      SplitToken(ts[0], "");
      assert ts[0] + "" == ts[0];
    } else {
      var rest := " " + Join(ts[1..], " ");
      assert Join(ts, " ") == ts[0] + rest;
      SplitToken(ts[0], rest);
      assert rest[0] == ' ' && rest[1..] == Join(ts[1..], " ");
      SplitJoin(ts[1..]);
      assert ts == [ts[0]] + ts[1..];
    }
  }

  lemma {:induction false} TokenLengthOf(t: string, rest: string)
    requires NoSpace(t)
    requires |rest| == 0 || IsSpace(rest[0])
    ensures TokenLength(t + rest) == |t|
    decreases |t|
  {
    if |t| > 0 {
      assert (t + rest)[1..] == t[1..] + rest;
      TokenLengthOf(t[1..], rest);
    } else {
      assert t + rest == rest;
    }
  }

  /** A leading token ends at the first space. */
  lemma SplitToken(t: string, rest: string)
    requires |t| > 0 && NoSpace(t)
    requires |rest| == 0 || IsSpace(rest[0])
    ensures Split(t + rest) == [t] + Split(rest)
  {
    TokenLengthOf(t, rest);
    var s := t + rest;
    assert s[..|t|] == t && s[|t|..] == rest;
  }

  lemma NoNewlineSuffix(a: string, b: string)
    requires NoNewline(a + b)
    ensures NoNewline(b)
  {
    assert forall i :: 0 <= i < |b| ==> (a + b)[|a| + i] == b[i];
  }

  lemma NoNewlineConcat(a: string, b: string)
    requires NoNewline(a) && NoNewline(b)
    ensures NoNewline(a + b)
  {
    assert forall i :: 0 <= i < |b| ==> (a + b)[|a| + i] == b[i];
  }
}
