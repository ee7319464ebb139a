/**
 * `IRC_RE` and `Client#parse` (lib/rhuidean/client.rb:256-309, the same
 * expression at lib/irc/client.rb:186-228): the message grammar of section
 * 2.3.1 of RFC 1459, cut down to an optional origin, a command, an optional
 * target and free text.  The expression is matched by hand, following the
 * leftmost-greedy search of Ruby's regular-expression engine on a line with
 * no newline left in it.
 */
module Parser {
  import opened Text

  /** The four capture groups of `IRC_RE` on a matching line.  The last
      group, `(.*)`, always takes part in the match, so it is never nil. */
  datatype Groups = Groups(origin: Option<string>, command: string, target: Option<string>, text: string)

  predicate TargetChar(c: char) {
    !IsSpace(c) && c != ':'
  }

  predicate Word(s: string) {
    |s| > 0 && forall i :: 0 <= i < |s| ==> IsWord(s[i])
  }

  predicate TargetToken(s: string) {
    |s| > 0 && forall i :: 0 <= i < |s| ==> TargetChar(s[i])
  }

  /** Groups a match can produce: the origin `[^\s]+`, the command `\w+`,
      the target `[^\s\:]+`, and text without a newline. */
  predicate WellFormed(g: Groups) {
    (g.origin.Some? ==> |g.origin.value| > 0 && NoSpace(g.origin.value))
    && Word(g.command)
    && (g.target.Some? ==> TargetToken(g.target.value))
    && NoNewline(g.text)
  }

  /** Length of the `\w` run that starts `s`. */
  function WordLength(s: string): (n: nat)
    ensures n <= |s|
    ensures forall i :: 0 <= i < n ==> IsWord(s[i])
    ensures n < |s| ==> !IsWord(s[n])
    decreases |s|
  {
    if |s| == 0 || !IsWord(s[0]) then 0 else 1 + WordLength(s[1..])
  }

  /** Length of the `[^\s\:]` run that starts `s`. */
  function TargetLength(s: string): (n: nat)
    ensures n <= |s|
    ensures forall i :: 0 <= i < n ==> TargetChar(s[i])
    ensures n < |s| ==> !TargetChar(s[n])
    decreases |s|
  {
    if |s| == 0 || !TargetChar(s[0]) then 0 else 1 + TargetLength(s[1..])
  }

  /** `\:?(.*)`: the greedy optional colon is taken when it is there. */
  function StripColon(s: string): string {
    if |s| > 0 && s[0] == ':' then s[1..] else s
  }

  /** Matches `IRC_RE` against a line.  A leading `:` commits the match to an
      origin, because without one the command `\w+` cannot start at `:`.
      Each `+` run is maximal, since a shorter run would be followed by a
      character of its own class where the expression needs `\s`.  The target
      group is taken only when its run is followed by whitespace. */
  function MatchLine(line: string): (r: Option<Groups>)
    requires NoNewline(line)
    ensures r.Some? ==> WellFormed(r.value)
    ensures r.Some? ==> SuffixOf(r.value.text, line)
    ensures r.Some? && r.value.origin.None? ==> |r.value.command| <= |line| && line[..|r.value.command|] == r.value.command
    ensures r.Some? && r.value.origin.Some? ==>
              var o := r.value.origin.value;
              |o| + 1 < |line| && line[0] == ':' && line[1..|o| + 1] == o && IsSpace(line[|o| + 1])
  {
    if |line| > 0 && line[0] == ':' then
      var n := TokenLength(line[1..]);
      if n == 0 || n + 1 == |line| then None
      else
        assert line[1..][..n] == line[1..n + 1];
        MatchCommand(Some(line[1..n + 1]), line[n + 2..])
    else MatchCommand(None, line)
  }

  /** The rest of `IRC_RE` after the optional origin. */
  function MatchCommand(origin: Option<string>, s: string): (r: Option<Groups>)
    requires NoNewline(s)
    requires origin.Some? ==> |origin.value| > 0 && NoSpace(origin.value)
    ensures r.Some? ==> WellFormed(r.value) && r.value.origin == origin
    ensures r.Some? ==> SuffixOf(r.value.text, s)
    ensures r.Some? ==> |r.value.command| <= |s| && s[..|r.value.command|] == r.value.command
  {
    var c := WordLength(s);
    if c == 0 || c == |s| || !IsSpace(s[c]) then None
    else
      assert forall i :: 0 <= i < c ==> s[..c][i] == s[i];
      DropSuffix(s, c + 1);
      SuffixOfSuffix(s, s[c + 1..], s[c + 1..]);
      var g := AfterCommand(origin, s[..c], s[c + 1..]);
      SuffixOfSuffix(s, s[c + 1..], g.text);
      Some(g)
  }

  /** The target and free text groups, read from what follows the command
      and its space. */
  function AfterCommand(origin: Option<string>, command: string, rest: string): (g: Groups)
    requires origin.Some? ==> |origin.value| > 0 && NoSpace(origin.value)
    requires Word(command) && NoNewline(rest)
    ensures WellFormed(g) && g.origin == origin && g.command == command
    ensures SuffixOf(g.text, rest)
  {
    var t := TargetLength(rest);
    if 0 < t < |rest| && IsSpace(rest[t]) then
      TargetRun(rest, t);
      TextAfter(rest, t + 1);
      Groups(origin, command, Some(rest[..t]), StripColon(rest[t + 1..]))
    else
      StripColonSuffix(rest);
      SuffixOfSuffix(rest, rest, StripColon(rest));
      Groups(origin, command, None, StripColon(rest))
  }

  /** A line that does not start with `:` has no origin. */
  lemma PlainLine(s: string)
    requires NoNewline(s) && (|s| == 0 || s[0] != ':')
    ensures MatchLine(s) == MatchCommand(None, s)
  {
  }

  /** A command word and one space leave the rest to `AfterCommand`. */
  lemma CommandThen(origin: Option<string>, c: string, tail: string)
    requires origin.Some? ==> |origin.value| > 0 && NoSpace(origin.value)
    requires Word(c) && NoNewline(c + " " + tail)
    ensures NoNewline(tail)
    ensures MatchCommand(origin, c + " " + tail) == Some(AfterCommand(origin, c, tail))
  {
    var s := c + " " + tail;
    assert s == c + (" " + tail);
    WordLengthOf(c, " " + tail);
    assert s[..|c|] == c && s[|c| + 1..] == tail;
    NoNewlineSuffix(c + " ", tail);
  }

  lemma TargetRun(s: string, t: nat)
    requires 0 < t <= |s| && forall i :: 0 <= i < t ==> TargetChar(s[i])
    ensures TargetToken(s[..t])
  {
    assert forall i :: 0 <= i < t ==> s[..t][i] == s[i];
  }

  /** The free text after the first `k` characters is a suffix of the line
      and has no newline. */
  lemma TextAfter(s: string, k: nat)
    requires NoNewline(s) && k <= |s|
    ensures SuffixOf(StripColon(s[k..]), s) && NoNewline(StripColon(s[k..]))
  {
    DropSuffix(s, k);
    StripColonSuffix(s[k..]);
    SuffixOfSuffix(s, s[k..], StripColon(s[k..]));
  }

  /** `c` is what is left of `s` after some prefix is taken off. */
  predicate SuffixOf(c: string, s: string) {
    |c| <= |s| && s[|s| - |c|..] == c
  }

  lemma DropSuffix(s: string, k: nat)
    requires k <= |s|
    ensures SuffixOf(s[k..], s)
  {
    assert |s| - |s[k..]| == k;
  }

  lemma StripColonSuffix(x: string)
    ensures SuffixOf(StripColon(x), x)
  {
  }

  /** A suffix of a suffix of `s` is a suffix of `s`, and keeps `s`'s
      freedom from newlines. */
  lemma SuffixOfSuffix(s: string, b: string, c: string)
    requires NoNewline(s) && SuffixOf(b, s) && SuffixOf(c, b)
    ensures SuffixOf(c, s) && NoNewline(b) && NoNewline(c)
  {
    assert forall i :: 0 <= i < |b| ==> b[i] == s[|s| - |b| + i];
    assert forall i :: 0 <= i < |c| ==> c[i] == s[|s| - |c| + i];
  }

  /** The canonical line for a set of groups: single spaces as separators and
      a colon before the text. */
  function Compose(g: Groups): string {
    OriginPart(g.origin) + Tail(g.command, g.target, g.text)
  }

  function OriginPart(origin: Option<string>): string {
    match origin
    case None => ""
    case Some(o) => ":" + o + " "
  }

  function Tail(c: string, target: Option<string>, text: string): string {
    match target
    case None => c + " :" + text
    case Some(t) => c + " " + t + " :" + text
  }

  // ---------------------------------------------------------------------
  // `Client#parse` of the rhuidean copy

  /** What `parse` hands to `Message.new`: with no target group the free
      text becomes the target and params is nil; otherwise params is the
      free text split on whitespace. */
  datatype Parsed = Parsed(origin: Option<string>, command: string, target: string, params: Option<seq<string>>)

  function Shape(g: Groups): Parsed {
    match g.target
    case None => Parsed(g.origin, g.command, g.text, None)
    case Some(t) => Parsed(g.origin, g.command, t, Some(Split(g.text)))
  }

  /** One receive-queue entry, chomped and matched (lib/rhuidean/client.rb:283-299).
      A line that does not match leaves `m` nil, and `m[1]` raises. */
  function ParseLine(entry: string): (r: Result<Parsed>)
    requires OneLine(entry)
    ensures r.Ok? ==> Word(r.value.command)
    ensures r.Ok? ==> (r.value.params.Some? ==> forall i :: 0 <= i < |r.value.params.value| ==> |r.value.params.value[i]| > 0 && NoSpace(r.value.params.value[i]))
    ensures r.Raised? <==> MatchLine(Chomp(entry)).None?
  {
    match MatchLine(Chomp(entry))
    case None => Raised("undefined method `[]' for nil:NilClass")
    case Some(g) => Ok(Shape(g))
  }

  /** The legacy `parse` (lib/irc/client.rb:212-224) posts the raw groups:
      no swap and no splitting. */
  function LegacyParseLine(entry: string): (r: Result<Groups>)
    requires OneLine(entry)
    ensures r.Ok? ==> WellFormed(r.value)
    ensures r.Raised? <==> MatchLine(Chomp(entry)).None?
  {
    match MatchLine(Chomp(entry))
    case None => Raised("undefined method `[]' for nil:NilClass")
    case Some(g) => Ok(g)
  }

  // ---------------------------------------------------------------------
  // Round trips

  /** Matching the canonical line of well-formed groups gives them back. */
  lemma MatchCompose(g: Groups)
    requires WellFormed(g)
    ensures NoNewline(Compose(g))
    ensures MatchLine(Compose(g)) == Some(g)
  {
    var tail := Tail(g.command, g.target, g.text);
    TailMatches(g.origin, g.command, g.target, g.text);
    match g.origin {
      case None =>
        assert Compose(g) == tail;
        assert tail[0] == g.command[0];
      case Some(o) =>
        assert Compose(g) == ":" + o + " " + tail;
        OriginMatches(o, tail);
    }
  }

  /** A leading `:origin ` is taken off and the rest matched as usual. */
  lemma OriginMatches(o: string, tail: string)
    requires |o| > 0 && NoSpace(o) && NoNewline(tail)
    ensures NoNewline(":" + o + " " + tail)
    ensures MatchLine(":" + o + " " + tail) == MatchCommand(Some(o), tail)
  {
    var line := ":" + o + " " + tail;
    assert line[1..] == o + (" " + tail);
    TokenLengthOf(o, " " + tail);
    assert line[1..|o| + 1] == o;
    assert line[|o| + 2..] == tail;
    assert NoNewline(":" + o + " ") by {
      assert forall i :: 0 <= i < |o| ==> !IsSpace(o[i]);
    }
    NoNewlineConcat(":" + o + " ", tail);
  }

  lemma TailMatches(origin: Option<string>, c: string, target: Option<string>, text: string)
    requires origin.Some? ==> |origin.value| > 0 && NoSpace(origin.value)
    requires Word(c) && NoNewline(text)
    requires target.Some? ==> TargetToken(target.value)
    ensures NoNewline(Tail(c, target, text))
    ensures MatchCommand(origin, Tail(c, target, text)) == Some(Groups(origin, c, target, text))
  {
    match target {
      case None => TailMatchesUntargeted(origin, c, text);
      case Some(t) => TailMatchesTargeted(origin, c, t, text);
    }
  }

  lemma TailMatchesUntargeted(origin: Option<string>, c: string, text: string)
    requires origin.Some? ==> |origin.value| > 0 && NoSpace(origin.value)
    requires Word(c) && NoNewline(text)
    ensures NoNewline(c + " :" + text)
    ensures MatchCommand(origin, c + " :" + text) == Some(Groups(origin, c, None, text))
  {
    var rest := ":" + text;
    var s := c + " :" + text;
    assert s == c + (" " + rest);
    WordLengthOf(c, " " + rest);
    assert s[..|c|] == c && s[|c| + 1..] == rest;
    assert TargetLength(rest) == 0;
    assert StripColon(rest) == text;
    NoNewlineConcat(c + " :", text);
  }

  lemma TailMatchesTargeted(origin: Option<string>, c: string, t: string, text: string)
    requires origin.Some? ==> |origin.value| > 0 && NoSpace(origin.value)
    requires Word(c) && NoNewline(text) && TargetToken(t)
    ensures NoNewline(c + " " + t + " :" + text)
    ensures MatchCommand(origin, c + " " + t + " :" + text) == Some(Groups(origin, c, Some(t), text))
  {
    var rest := t + " :" + text;
    var s := c + " " + t + " :" + text;
    TailNoNewline(c, t, text);
    assert s == c + (" " + rest);
    WordLengthOf(c, " " + rest);
    assert s[..|c|] == c && s[|c| + 1..] == rest;
    TargetSplit(t, text);
  }

  lemma TargetSplit(t: string, text: string)
    requires TargetToken(t)
    ensures var rest := t + " :" + text;
            TargetLength(rest) == |t| && rest[|t|] == ' ' && rest[..|t|] == t && StripColon(rest[|t| + 1..]) == text
  {
    var rest := t + " :" + text;
    TargetSlices(t, text);
    assert TargetToken(t);
    TargetLengthOf(t, " " + ":" + text);
  }

  lemma TargetSlices(t: string, text: string)
    ensures var rest := t + " :" + text;
            rest == t + (" " + ":" + text) && rest[|t|] == ' ' && rest[..|t|] == t && rest[|t| + 1..] == ":" + text
  {
    var rest := t + " :" + text;
    assert rest == t + (" " + ":" + text);
    assert rest[|t| + 1..] == ":" + text;
  }

  lemma TailNoNewline(c: string, t: string, text: string)
    requires Word(c) && NoNewline(text) && TargetToken(t)
    ensures NoNewline(c + " " + t + " :" + text)
  {
    assert NoNewline(c + " ") by {
      assert forall i :: 0 <= i < |c| ==> IsWord(c[i]);
    }
    assert NoNewline(t) by {
      assert forall i :: 0 <= i < |t| ==> TargetChar(t[i]);
    }
    NoNewlineConcat(c + " ", t);
    NoNewlineConcat(c + " " + t, " :");
    NoNewlineConcat(c + " " + t + " :", text);
  }

  lemma {:induction false} WordLengthOf(w: string, rest: string)
    requires forall i :: 0 <= i < |w| ==> IsWord(w[i])
    requires |rest| == 0 || !IsWord(rest[0])
    ensures WordLength(w + rest) == |w|
    decreases |w|
  {
    if |w| > 0 {
      assert (w + rest)[1..] == w[1..] + rest;
      WordLengthOf(w[1..], rest);
    } else {
      assert w + rest == rest;
    }
  }

  lemma {:induction false} TargetLengthOf(t: string, rest: string)
    requires forall i :: 0 <= i < |t| ==> TargetChar(t[i])
    requires |rest| == 0 || !TargetChar(rest[0])
    ensures TargetLength(t + rest) == |t|
    decreases |t|
  {
    if |t| > 0 {
      assert (t + rest)[1..] == t[1..] + rest;
      TargetLengthOf(t[1..], rest);
    } else {
      assert t + rest == rest;
    }
  }

  /** A line with a target: params are the space-separated words of the
      free text, recovered exactly. */
  lemma ParseWithTarget(origin: Option<string>, c: string, t: string, ps: seq<string>)
    requires origin.Some? ==> |origin.value| > 0 && NoSpace(origin.value)
    requires Word(c) && TargetToken(t)
    requires forall i :: 0 <= i < |ps| ==> |ps[i]| > 0 && NoSpace(ps[i])
    ensures var line := Compose(Groups(origin, c, Some(t), Join(ps, " ")));
            OneLine(line + "\r\n") && ParseLine(line + "\r\n") == Ok(Parsed(origin, c, t, Some(ps)))
  {
    var text := Join(ps, " ");
    JoinNoNewline(ps);
    var g := Groups(origin, c, Some(t), text);
    MatchCompose(g);
    ChompCrlf(Compose(g));
    SplitJoin(ps);
  }

  /** A line without a target: the free text becomes the target, whole,
      and there are no params. */
  lemma ParseWithoutTarget(origin: Option<string>, c: string, text: string)
    requires origin.Some? ==> |origin.value| > 0 && NoSpace(origin.value)
    requires Word(c) && NoNewline(text)
    ensures var line := Compose(Groups(origin, c, None, text));
            OneLine(line + "\r\n") && ParseLine(line + "\r\n") == Ok(Parsed(origin, c, text, None))
  {
    var g := Groups(origin, c, None, text);
    MatchCompose(g);
    ChompCrlf(Compose(g));
  }

  /** The legacy parser returns the groups themselves. */
  lemma LegacyParseCompose(g: Groups)
    requires WellFormed(g)
    ensures OneLine(Compose(g) + "\r\n") && LegacyParseLine(Compose(g) + "\r\n") == Ok(g)
  {
    MatchCompose(g);
    ChompCrlf(Compose(g));
  }

  lemma ChompCrlf(s: string)
    requires NoNewline(s)
    ensures OneLine(s + "\r\n") && Chomp(s + "\r\n") == s
  {
    var e := s + "\r\n";
    assert e[..|e| - 1] == s + "\r";
    assert e[|e| - 2..] == "\r\n";
    assert e[..|e| - 2] == s;
  }

  lemma {:induction false} JoinNoNewline(ps: seq<string>)
    requires forall i :: 0 <= i < |ps| ==> NoSpace(ps[i])
    ensures NoNewline(Join(ps, " "))
    decreases |ps|
  {
    if |ps| > 1 {
      JoinNoNewline(ps[1..]);
      var j := Join(ps[1..], " ");
      assert Join(ps, " ") == ps[0] + " " + j;
      assert forall i :: 0 <= i < |ps[0]| ==> ps[0][i] != '\n';
    } else if |ps| == 1 {
      assert forall i :: 0 <= i < |ps[0]| ==> ps[0][i] != '\n';
    }
  }

  /** Lines `IRC_RE` rejects: an origin with nothing after it, and a command
      with no whitespace after it. */
  lemma OriginAloneRejected()
    ensures MatchLine(":irc.example.net") == None
  {
    var s := ":irc.example.net";
    assert s[1..] + "" == s[1..];
    TokenLengthOf(s[1..], "");
  }

  /** A line that is a command word and nothing more (the empty line
      included) does not match: the command must be followed by whitespace. */
  lemma CommandAloneRejected(w: string)
    requires forall i :: 0 <= i < |w| ==> IsWord(w[i])
    ensures NoNewline(w) && MatchLine(w) == None
  {
    assert w + "" == w;
    WordLengthOf(w, "");
  }
}
