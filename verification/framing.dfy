/**
 * Line framing of `Client#read` (lib/rhuidean/client.rb:209-222 and the
 * identical lib/irc/client.rb:143-156).  Newly read text is cut by
 * `scan(/(.+\n?)/)` into pieces, and each piece either joins an unterminated
 * last entry of the receive queue or becomes a new entry.
 */
module Framing {
  import opened Text

  /** A scan piece: at least one character other than a newline, and a
      newline, if any, only at the end. */
  predicate Piece(p: string) {
    |p| > 0 && p[0] != '\n' && NoNewline(p[..|p| - 1])
  }

  /** A receive-queue entry: nonempty, with a newline only at the end. */
  predicate Line(e: string) {
    |e| > 0 && NoNewline(e[..|e| - 1])
  }

  /** The receive-queue invariant: every entry is a line and every entry but
      the last ends in a newline. */
  predicate Framed(q: seq<string>) {
    (forall i :: 0 <= i < |q| ==> Line(q[i]))
    && (forall i :: 0 <= i < |q| - 1 ==> EndsWithNewline(q[i]))
  }

  /** A framed entry holds at most one line break, at its end. */
  lemma FramedOneLine(q: seq<string>)
    requires Framed(q)
    ensures forall i :: 0 <= i < |q| ==> OneLine(q[i])
  {
    forall i | 0 <= i < |q| ensures OneLine(q[i]) {
      assert Line(q[i]);
    }
  }

  /** The last entry is still waiting for the rest of its line. */
  predicate Unterminated(q: seq<string>) {
    |q| > 0 && !EndsWithNewline(Last(q))
  }

  /** `@recvq[-1][-1] == "\n"`: the condition for posting `:recvq_ready`. */
  predicate Ready(q: seq<string>) {
    |q| > 0 && EndsWithNewline(Last(q))
  }

  /** The text of a queue of lines, in order. */
  function Concat(q: seq<string>): string
    decreases |q|
  {
    if |q| == 0 then "" else q[0] + Concat(q[1..])
  }

  /** Length of the run of non-newline characters that starts `s`. */
  function LineLength(s: string): (n: nat)
    ensures n <= |s| && NoNewline(s[..n])
    ensures n < |s| ==> s[n] == '\n'
    decreases |s|
  {
    if |s| == 0 || s[0] == '\n' then 0 else 1 + LineLength(s[1..])
  }

  /** `s.scan(/(.+\n?)/)`: every maximal run of non-newline characters, with
      the newline that ends it when there is one.  A newline that ends no
      run matches nothing, so blank lines vanish. */
  function Pieces(s: string): (r: seq<string>)
    ensures forall i :: 0 <= i < |r| ==> Piece(r[i])
    ensures forall i :: 0 <= i < |r| - 1 ==> EndsWithNewline(r[i])
    ensures |s| > 0 && Last(s) != '\n' ==> |r| > 0 && !EndsWithNewline(Last(r))
    ensures |r| > 0 && |s| > 0 && Last(s) == '\n' ==> EndsWithNewline(Last(r))
    decreases |s|
  {
    if |s| == 0 then []
    else if s[0] == '\n' then Pieces(s[1..])
    else
      var n := LineLength(s);
      if n == |s| then [s]
      else
        var rest := Pieces(s[n + 1..]);
        PiecesCons(s, n, rest);
        [s[..n + 1]] + rest
  }

  /** The line that starts `s`, with its newline, goes in front of the
      pieces of what follows. */
  lemma PiecesCons(s: string, n: nat, rest: seq<string>)
    requires n < |s| && s[0] != '\n' && NoNewline(s[..n]) && s[n] == '\n'
    requires forall i :: 0 <= i < |rest| ==> Piece(rest[i])
    requires forall i :: 0 <= i < |rest| - 1 ==> EndsWithNewline(rest[i])
    requires |rest| > 0 && n + 1 < |s| && Last(s) == '\n' ==> EndsWithNewline(Last(rest))
    requires n + 1 < |s| && Last(s) != '\n' ==> |rest| > 0 && !EndsWithNewline(Last(rest))
    requires n + 1 == |s| ==> rest == []
    ensures var r := [s[..n + 1]] + rest;
            (forall i :: 0 <= i < |r| ==> Piece(r[i]))
            && (forall i :: 0 <= i < |r| - 1 ==> EndsWithNewline(r[i]))
            && (Last(s) != '\n' ==> !EndsWithNewline(Last(r)))
            && (Last(s) == '\n' ==> EndsWithNewline(Last(r)))
  {
    var p := s[..n + 1];
    var r := [p] + rest;
    assert p[..|p| - 1] == s[..n];
    assert Piece(p) && EndsWithNewline(p);
    assert forall i :: 0 < i < |r| ==> r[i] == rest[i - 1];
    if |rest| == 0 {
      assert Last(r) == p;
    } else {
      assert Last(r) == Last(rest);
    }
    if n + 1 < |s| {
      assert Last(s[n + 1..]) == Last(s);
    } else {
      assert Last(s) == '\n';
    }
  }

  /** Reference for what framing keeps of the text: every newline that ends
      a nonempty line.  `atStart` says whether `s` begins a line. */
  function SqueezeFrom(s: string, atStart: bool): string
    decreases |s|
  {
    if |s| == 0 then ""
    else if s[0] == '\n' then (if atStart then "" else "\n") + SqueezeFrom(s[1..], true)
    else [s[0]] + SqueezeFrom(s[1..], false)
  }

  function Squeeze(s: string): string {
    SqueezeFrom(s, true)
  }

  /** One step of the `scan` block: a piece joins an unterminated last entry,
      otherwise it is pushed. */
  function Stitch(q: seq<string>, p: string): (r: seq<string>)
    ensures Concat(r) == Concat(q) + p
  {
    if Unterminated(q) then
      var r := q[..|q| - 1] + [Last(q) + p];
      ConcatAppend(q[..|q| - 1], [Last(q)]);
      ConcatAppend(q[..|q| - 1], [Last(q) + p]);
      assert q[..|q| - 1] + [Last(q)] == q;
      r
    else
      ConcatAppend(q, [p]);
      q + [p]
  }

  function Frame(q: seq<string>, ps: seq<string>): (r: seq<string>)
    ensures Concat(r) == Concat(q) + Concat(ps)
    decreases |ps|
  {
    if |ps| == 0 then q
    else
      var r := Frame(Stitch(q, ps[0]), ps[1..]);
      assert Concat(ps) == ps[0] + Concat(ps[1..]);
      assert Concat(q) + ps[0] + Concat(ps[1..]) == Concat(q) + (ps[0] + Concat(ps[1..]));
      r
  }

  /** The receive queue after `read` returned the nonempty text `d`. */
  function ReadLines(q: seq<string>, d: string): (r: seq<string>)
    ensures Concat(r) == Concat(q) + Squeeze(d)
  {
    PiecesSqueeze(d);
    Frame(q, Pieces(d))
  }

  // ---------------------------------------------------------------------
  // What `read` keeps

  /** Framing keeps the invariant: entries stay lines and only the last one
      may lack its newline. */
  lemma ReadLinesFramed(q: seq<string>, d: string)
    requires Framed(q)
    ensures Framed(ReadLines(q, d))
  {
    FrameFramed(q, Pieces(d));
  }

  lemma {:induction false} FrameFramed(q: seq<string>, ps: seq<string>)
    requires Framed(q)
    requires forall i :: 0 <= i < |ps| ==> Piece(ps[i])
    ensures Framed(Frame(q, ps))
    decreases |ps|
  {
    if |ps| > 0 {
      StitchFramed(q, ps[0]);
      FrameFramed(Stitch(q, ps[0]), ps[1..]);
    }
  }

  lemma StitchFramed(q: seq<string>, p: string)
    requires Framed(q) && Piece(p)
    ensures Framed(Stitch(q, p))
  {
    var r := Stitch(q, p);
    if Unterminated(q) {
      var e := Last(q) + p;
      assert e[..|e| - 1] == Last(q) + p[..|p| - 1];
      assert NoNewline(Last(q));
      assert Line(e);
      assert forall i :: 0 <= i < |r| - 1 ==> r[i] == q[i];
    } else {
      assert p[..|p| - 1] == p[..|p| - 1];
    }
  }

  /** With no unterminated entry, `read` appends the pieces as they are. */
  lemma {:induction false} FrameTerminated(q: seq<string>, ps: seq<string>)
    requires !Unterminated(q)
    requires forall i :: 0 <= i < |ps| - 1 ==> EndsWithNewline(ps[i])
    ensures Frame(q, ps) == q + ps
    decreases |ps|
  {
    if |ps| > 0 {
      var p, rest := ps[0], ps[1..];
      assert ps == [p] + rest;
      FrameCons(q, p, rest);
      StitchTerminated(q, p);
      if |rest| > 0 {
        assert Last(q + [p]) == p;
        FrameTerminated(q + [p], rest);
      }
      SnocAppend(q, p, rest);
    }
  }

  lemma SnocAppend(q: seq<string>, p: string, rest: seq<string>)
    ensures (q + [p]) + rest == q + ([p] + rest)
  {
  }

  lemma StitchTerminated(q: seq<string>, p: string)
    requires !Unterminated(q)
    ensures Stitch(q, p) == q + [p]
  {
  }

  /** An unterminated last entry absorbs the first piece of the read. */
  lemma ReadLinesStitches(q: seq<string>, d: string)
    requires Unterminated(q)
    requires |Pieces(d)| > 0
    ensures var r := ReadLines(q, d);
            |r| >= |q| && r[..|q| - 1] == q[..|q| - 1] && r[|q| - 1] == Last(q) + Pieces(d)[0]
  {
    var ps := Pieces(d);
    var q1 := q[..|q| - 1] + [Last(q) + ps[0]];
    assert Stitch(q, ps[0]) == q1;
    assert ReadLines(q, d) == Frame(q1, ps[1..]);
    if |ps| > 1 {
      assert !Unterminated(q1);
      FrameTerminated(q1, ps[1..]);
      assert Frame(q1, ps[1..])[..|q|] == q1;
    }
  }

  /** The text `read` keeps is the read text with every newline that ends no
      nonempty line of its own dropped. */
  lemma {:induction false} PiecesSqueeze(s: string)
    ensures Concat(Pieces(s)) == Squeeze(s)
    decreases |s|
  {
    if |s| > 0 {
      if s[0] == '\n' {
        PiecesSqueeze(s[1..]);
      } else {
        var n := LineLength(s);
        if n == |s| {
          SqueezeRun(s, "", true);
          assert s + "" == s;
          assert Concat([s]) == s + Concat([]);
        } else {
          var line := s[..n];
          var rest := s[n + 1..];
          assert s == line + "\n" + rest;
          PiecesLine(line, rest);
          SqueezeLine(line, rest);
          PiecesSqueeze(rest);
          ConcatCons(line + "\n", Pieces(rest));
        }
      }
    }
  }

  /** A line and its newline are kept whole. */
  lemma SqueezeLine(t: string, rest: string)
    requires |t| > 0 && NoNewline(t)
    ensures Squeeze(t + "\n" + rest) == t + "\n" + Squeeze(rest)
  {
    assert t + "\n" + rest == t + ("\n" + rest);
    SqueezeRun(t, "\n" + rest, true);
    assert ("\n" + rest)[1..] == rest;
  }

  lemma ConcatCons(p: string, q: seq<string>)
    ensures Concat([p] + q) == p + Concat(q)
  {
    assert ([p] + q)[1..] == q;
  }

  lemma {:induction false} SqueezeRun(t: string, u: string, atStart: bool)
    requires |t| > 0 && NoNewline(t)
    ensures SqueezeFrom(t + u, atStart) == t + SqueezeFrom(u, false)
    decreases |t|
  {
    assert (t + u)[1..] == t[1..] + u;
    if |t| == 1 {
      assert t[1..] + u == u;
    } else {
      SqueezeRun(t[1..], u, false);
    }
  }

  lemma {:induction false} ConcatAppend(a: seq<string>, b: seq<string>)
    ensures Concat(a + b) == Concat(a) + Concat(b)
    decreases |a|
  {
    if |a| == 0 {
      assert a + b == b;
    } else {
      assert (a + b)[1..] == a[1..] + b;
      ConcatAppend(a[1..], b);
    }
  }

  // ---------------------------------------------------------------------
  // The merged-line defect and the evidently intended framing

  /** A read that starts with the newline ending an unterminated entry loses
      that newline: the entry and the next line become one. */
  lemma ReadMergesLines()
    ensures ReadLines(["PING :a"], "\nPING :b\n") == ["PING :aPING :b\n"]
  {
    var ps := ["PING :b\n"];
    SkippedNewlineExample();
    assert ReadLines(["PING :a"], "\nPING :b\n") == Frame(["PING :a"], ps);
    GluedExample();
    assert Frame(["PING :a"], ps) == Frame(Stitch(["PING :a"], ps[0]), ps[1..]);
    assert ps[1..] == [];
  }

  /** `scan` finds one piece in `"\nPING :b\n"`: the leading newline is
      skipped. */
  lemma SkippedNewlineExample()
    ensures Pieces("\nPING :b\n") == ["PING :b\n"]
  {
    var d := "\nPING :b\n";
    assert d[0] == '\n' && d[1..] == "PING :b" + "\n" + "";
    PiecesLine("PING :b", "");
    assert Pieces("") == [];
    assert "PING :b" + "\n" == "PING :b\n";
  }

  /** The piece joins the unterminated entry before it. */
  lemma GluedExample()
    ensures Stitch(["PING :a"], "PING :b\n") == ["PING :aPING :b\n"]
  {
    assert Last("PING :a") == 'a';
    assert Unterminated(["PING :a"]);
    assert "PING :a" + "PING :b\n" == "PING :aPING :b\n";
    assert ["PING :a"][..0] == [];
  }

  /** A line and its newline are one piece. */
  lemma PiecesLine(t: string, rest: string)
    requires |t| > 0 && NoNewline(t)
    ensures Pieces(t + "\n" + rest) == [t + "\n"] + Pieces(rest)
  {
    var s := t + "\n" + rest;
    assert s[..|t|] == t;
    LineLengthOf(s, |t|);
    assert s[..|t| + 1] == t + "\n";
    assert s[|t| + 1..] == rest;
  }

  /** A run without newline is one piece. */
  lemma PiecesRun(t: string)
    requires |t| > 0 && NoNewline(t)
    ensures Pieces(t) == [t]
  {
    assert t[..|t|] == t;
    LineLengthOf(t, |t|);
  }

  lemma LineLengthOf(s: string, n: nat)
    requires n <= |s| && NoNewline(s[..n]) && (n < |s| ==> s[n] == '\n')
    ensures LineLength(s) == n
    decreases n
  {
    if n > 0 {
      assert s[1..][..n - 1] == s[..n][1..];
      LineLengthOf(s[1..], n - 1);
    }
  }

  /** The framing the code evidently intends: an unterminated entry is
      re-scanned together with the new text, as if both had arrived in one
      read. */
  function ReadCorrected(q: seq<string>, d: string): seq<string> {
    if Unterminated(q) then q[..|q| - 1] + Pieces(Last(q) + d)
    else q + Pieces(d)
  }

  /** Unlike `ReadLines`, the corrected framing keeps the newline that ends
      an unterminated entry. */
  lemma ReadCorrectedText(q: seq<string>, d: string)
    requires Framed(q)
    ensures Concat(ReadCorrected(q, d)) == Concat(q) + SqueezeFrom(d, !Unterminated(q))
  {
    if Unterminated(q) {
      var front := q[..|q| - 1];
      var t := Last(q);
      assert front + [t] == q;
      assert Line(t);
      ReopenedText(front, t, d);
    } else {
      ConcatAppend(q, Pieces(d));
      PiecesSqueeze(d);
    }
  }

  /** Re-scanning an open entry `t` with the new text keeps every newline
      of the new text. */
  lemma ReopenedText(front: seq<string>, t: string, d: string)
    requires |t| > 0 && NoNewline(t)
    ensures Concat(front + Pieces(t + d)) == Concat(front + [t]) + SqueezeFrom(d, false)
  {
    OpenPieces(t, d);
    ConcatReplace(front, Pieces(t + d), t, SqueezeFrom(d, false));
  }

  /** Pieces spelling `t + rest` may stand in for the entry `t`. */
  lemma ConcatReplace(front: seq<string>, ps: seq<string>, t: string, rest: string)
    requires Concat(ps) == t + rest
    ensures Concat(front + ps) == Concat(front + [t]) + rest
  {
    var pre := Concat(front);
    ConcatSnoc(front, t);
    ConcatAppend(front, ps);
    assert pre + (t + rest) == (pre + t) + rest;
  }

  lemma OpenPieces(t: string, d: string)
    requires |t| > 0 && NoNewline(t)
    ensures Concat(Pieces(t + d)) == t + SqueezeFrom(d, false)
  {
    PiecesSqueeze(t + d);
    SqueezeRun(t, d, true);
  }

  lemma ConcatSnoc(q: seq<string>, t: string)
    ensures Concat(q + [t]) == Concat(q) + t
  {
    ConcatAppend(q, [t]);
    assert Concat([t]) == t + Concat([]);
  }

  lemma ReadCorrectedFramed(q: seq<string>, d: string)
    requires Framed(q)
    ensures Framed(ReadCorrected(q, d))
  {
    var r := ReadCorrected(q, d);
    if Unterminated(q) {
      var front := q[..|q| - 1];
      var ps := Pieces(Last(q) + d);
      assert r == front + ps;
      assert forall i :: 0 <= i < |ps| ==> r[|front| + i] == ps[i];
      forall i | 0 <= i < |r| ensures Line(r[i]) {
        if i >= |front| {
          assert Piece(ps[i - |front|]);
        }
      }
    } else {
      var ps := Pieces(d);
      assert forall i :: 0 <= i < |ps| ==> r[|q| + i] == ps[i];
      forall i | 0 <= i < |r| ensures Line(r[i]) {
        if i >= |q| {
          assert Piece(ps[i - |q|]);
        }
      }
    }
  }

  /** Corrected framing does not depend on how the text was cut into reads:
      framing `a` and then reading `b` gives the lines of `a + b`. */
  lemma {:induction false} ReadCorrectedChunks(a: string, b: string)
    ensures ReadCorrected(Pieces(a), b) == Pieces(a + b)
    decreases |a|
  {
    if |a| == 0 {
      assert a + b == b;
    } else if a[0] == '\n' {
      assert (a + b)[1..] == a[1..] + b;
      ReadCorrectedChunks(a[1..], b);
    } else {
      var n := LineLength(a);
      assert a[..n] == a[..n];
      if n == |a| {
        assert a[..n] == a;
        PiecesRun(a);
        assert Unterminated([a]);
        assert ReadCorrected([a], b) == [] + Pieces(a + b);
      } else {
        var rest := a[n + 1..];
        assert a == a[..n] + "\n" + rest;
        assert a + b == a[..n] + "\n" + (rest + b);
        PiecesLine(a[..n], rest);
        PiecesLine(a[..n], rest + b);
        ReadCorrectedChunks(rest, b);
        ReadCorrectedCons(a[..n] + "\n", Pieces(rest), b);
      }
    }
  }

  lemma ReadCorrectedCons(p: string, ps: seq<string>, b: string)
    requires EndsWithNewline(p)
    ensures ReadCorrected([p] + ps, b) == [p] + ReadCorrected(ps, b)
  {
    var q := [p] + ps;
    if |ps| == 0 {
      var tail := Pieces(b);
      assert q == [p] && !Unterminated(q);
      assert q + tail == [p] + ([] + tail);
    } else {
      assert Last(q) == Last(ps);
      if Unterminated(ps) {
        var front := ps[..|ps| - 1];
        var tail := Pieces(Last(ps) + b);
        assert q[..|q| - 1] == [p] + front;
        assert ([p] + front) + tail == [p] + (front + tail);
      } else {
        var tail := Pieces(b);
        assert q + tail == [p] + (ps + tail);
      }
    }
  }

  /** A line that ends inside `a` ends at the same place in `a + b`; one
      that runs to the end of `a` continues into `b`. */
  lemma {:induction false} LineLengthPrefix(a: string, b: string)
    ensures LineLength(a) < |a| ==> LineLength(a + b) == LineLength(a)
    ensures LineLength(a) == |a| ==> LineLength(a + b) == |a| + LineLength(b)
    decreases |a|
  {
    if |a| == 0 {
      assert a + b == b;
    } else if a[0] != '\n' {
      assert (a + b)[1..] == a[1..] + b;
      LineLengthPrefix(a[1..], b);
    }
  }

  /** Where the code and the intended framing agree: they differ exactly
      when an unterminated entry is followed by a read that starts with a
      newline. */
  lemma ReadLinesAgree(q: seq<string>, d: string)
    requires Framed(q)
    ensures ReadLines(q, d) == ReadCorrected(q, d)
            <==> !(Unterminated(q) && |d| > 0 && d[0] == '\n')
  {
    if !Unterminated(q) {
      FrameTerminated(q, Pieces(d));
    } else if |d| == 0 {
      var t := Last(q);
      assert NoNewline(t);
      assert t + d == t;
      PiecesRun(t);
      assert q[..|q| - 1] + [t] == q;
    } else if d[0] != '\n' {
      StitchAgree(q, d);
    } else {
      var r1 := ReadLines(q, d);
      var r2 := ReadCorrected(q, d);
      ReadCorrectedText(q, d);
      assert SqueezeFrom(d, true) == SqueezeFrom(d[1..], true);
      assert SqueezeFrom(d, false) == "\n" + SqueezeFrom(d[1..], true);
      assert |Concat(r1)| != |Concat(r2)|;
    }
  }

  lemma StitchAgree(q: seq<string>, d: string)
    requires Framed(q) && Unterminated(q)
    requires |d| > 0 && d[0] != '\n'
    ensures ReadLines(q, d) == ReadCorrected(q, d)
  {
    var m := LineLength(d);
    if m == |d| {
      assert d[..m] == d;
      StitchAgreeRun(q, d);
    } else {
      var u := d[..m];
      var rest := d[m + 1..];
      assert d == u + "\n" + rest;
      StitchAgreeLine(q, u, rest);
    }
  }

  lemma StitchAgreeRun(q: seq<string>, d: string)
    requires Framed(q) && Unterminated(q)
    requires |d| > 0 && NoNewline(d)
    ensures ReadLines(q, d) == ReadCorrected(q, d)
  {
    var t := Last(q);
    var front := q[..|q| - 1];
    assert NoNewline(t);
    assert ReadCorrected(q, d) == front + Pieces(t + d);
    PiecesRun(d);
    PiecesRun(t + d);
    assert Stitch(q, d) == front + [t + d];
    assert ReadLines(q, d) == Frame(q, [d]);
    assert [d][1..] == [];
  }

  lemma StitchAgreeLine(q: seq<string>, u: string, rest: string)
    requires Unterminated(q) && NoNewline(Last(q))
    requires |u| > 0 && NoNewline(u)
    ensures ReadLines(q, u + "\n" + rest) == ReadCorrected(q, u + "\n" + rest)
  {
    var d := u + "\n" + rest;
    var t := Last(q);
    var front := q[..|q| - 1];
    var q1 := front + [t + (u + "\n")];
    assert t + d == (t + u) + "\n" + rest;
    assert t + (u + "\n") == (t + u) + "\n";
    PiecesLine(t + u, rest);
    assert ReadCorrected(q, d) == q1 + Pieces(rest);
    PiecesLine(u, rest);
    FrameCons(q, u + "\n", Pieces(rest));
    assert Stitch(q, u + "\n") == q1;
    FrameTerminated(q1, Pieces(rest));
  }

  lemma FrameCons(q: seq<string>, p: string, ps: seq<string>)
    ensures Frame(q, [p] + ps) == Frame(Stitch(q, p), ps)
  {
    assert ([p] + ps)[1..] == ps;
  }
}
