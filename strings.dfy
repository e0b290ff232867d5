/**
 * Joining a hook's commands into one script, and the lines of a script:
 * PHP's `implode`, and its inverse for newline-free pieces.
 */
module Strings {

  /** The sum of the lengths of the pieces. */
  function TotalLength(pieces: seq<string>): nat
  {
    if pieces == [] then 0 else |pieces[0]| + TotalLength(pieces[1..])
  }

  /** `implode($glue, $pieces)`: the pieces in order, with the glue between each neighbouring pair. */
  function Implode(glue: string, pieces: seq<string>): (r: string)
    ensures |pieces| > 0 ==> |r| == TotalLength(pieces) + (|pieces| - 1) * |glue|
  {
    if |pieces| == 0 then ""
    else if |pieces| == 1 then pieces[0]
    else pieces[0] + glue + Implode(glue, pieces[1..])
  }

  predicate NoNewline(s: string)
  {
    '\n' !in s
  }

  /** The lines of s: the newline-free stretches between its '\n' characters. */
  function Lines(s: string): (r: seq<string>)
    ensures |r| > 0
    ensures forall i :: 0 <= i < |r| ==> NoNewline(r[i])
    decreases |s|
  {
    if |s| == 0 then [""]
    else if s[0] == '\n' then [""] + Lines(s[1..])
    else
      var rest := Lines(s[1..]);
      assert NoNewline(rest[0]);
      [[s[0]] + rest[0]] + rest[1..]
  }

  /** Appending a piece appends the glue and that piece, whatever the pieces hold. */
  lemma {:induction false} ImplodeSnoc(glue: string, pieces: seq<string>, piece: string)
    requires pieces != []
    ensures Implode(glue, pieces + [piece]) == Implode(glue, pieces) + glue + piece
  {
    var all := pieces + [piece];
    if |pieces| == 1 {
      assert all[1..] == [piece];
    } else {
      assert all[1..] == pieces[1..] + [piece];
      ImplodeSnoc(glue, pieces[1..], piece);
    }
  }

  /** Each input with t appended. */
  function Suffixed(xs: seq<string>, t: string): (r: seq<string>)
    ensures |r| == |xs| && forall i :: 0 <= i < |xs| ==> r[i] == xs[i] + t
  {
    seq(|xs|, i requires 0 <= i < |xs| => xs[i] + t)
  }

  /** Joining the lines of any text with newlines gives the text back. */
  lemma {:induction false} ImplodeLines(s: string)
    ensures Implode("\n", Lines(s)) == s
    decreases |s|
  {
    if |s| > 0 {
      ImplodeLines(s[1..]);
      var rest := Lines(s[1..]);
      if s[0] == '\n' {
        assert ([""] + rest)[1..] == rest;
      } else {
        var r := [[s[0]] + rest[0]] + rest[1..];
        if |rest| > 1 {
          assert r[1..] == rest[1..];
        }
        assert s == [s[0]] + s[1..];
      }
    }
  }

  /** Text without a newline is a single line. */
  lemma {:induction false} LinesOfLine(a: string)
    requires NoNewline(a)
    ensures Lines(a) == [a]
    decreases |a|
  {
    if |a| > 0 {
      assert NoNewline(a[1..]) by {
        assert forall i :: 0 <= i < |a[1..]| ==> a[1..][i] == a[i + 1];
      }
      LinesOfLine(a[1..]);
      assert a == [a[0]] + a[1..];
    }
  }

  /** A newline-free first line, then a newline, then the rest. */
  lemma {:induction false} LinesAfterLine(a: string, b: string)
    requires NoNewline(a)
    ensures Lines(a + "\n" + b) == [a] + Lines(b)
    decreases |a|
  {
    if |a| == 0 {
      assert a + "\n" + b == "\n" + b;
      assert ("\n" + b)[1..] == b;
    } else {
      assert NoNewline(a[1..]) by {
        assert forall i :: 0 <= i < |a[1..]| ==> a[1..][i] == a[i + 1];
      }
      LinesAfterLine(a[1..], b);
      assert (a + "\n" + b)[1..] == a[1..] + "\n" + b;
      assert a == [a[0]] + a[1..];
    }
  }

  /**
   * Joining newline-free pieces with t followed by a newline puts each piece on
   * its own line, every line but the last ending in t.
   */
  lemma {:induction false} LinesOfImplode(t: string, pieces: seq<string>)
    requires NoNewline(t)
    requires |pieces| > 0
    requires forall i :: 0 <= i < |pieces| ==> NoNewline(pieces[i])
    ensures Lines(Implode(t + "\n", pieces)) == Suffixed(pieces[..|pieces| - 1], t) + [pieces[|pieces| - 1]]
  {
    var n := |pieces| - 1;
    if n == 0 {
      LinesOfLine(pieces[0]);
    } else {
      var head := pieces[0] + t;
      assert NoNewline(pieces[0]);
      assert NoNewline(head);
      var tail := pieces[1..];
      forall i | 0 <= i < |tail|
        ensures NoNewline(tail[i])
      {
        assert tail[i] == pieces[i + 1];
      }
      LinesOfImplode(t, tail);
      var rest := Implode(t + "\n", tail);
      assert Implode(t + "\n", pieces) == head + "\n" + rest;
      LinesAfterLine(head, rest);
      assert tail[..|tail| - 1] == pieces[1..n];
      assert tail[|tail| - 1] == pieces[n];
      assert Suffixed(pieces[..n], t) == [head] + Suffixed(pieces[1..n], t);
    }
  }

  /** Joining newline-free pieces with newlines and splitting the result into lines gives the pieces back. */
  lemma LinesOfNewlineImplode(pieces: seq<string>)
    requires |pieces| > 0
    requires forall i :: 0 <= i < |pieces| ==> NoNewline(pieces[i])
    ensures Lines(Implode("\n", pieces)) == pieces
  {
    var n := |pieces| - 1;
    var init := pieces[..n];
    LinesOfImplode("", pieces);
    assert "" + "\n" == "\n";
    var suffixed := Suffixed(init, "");
    forall i | 0 <= i < n
      ensures suffixed[i] == init[i]
    {
      assert init[i] + "" == init[i];
    }
    assert suffixed == init;
    assert init + [pieces[n]] == pieces;
  }
}
