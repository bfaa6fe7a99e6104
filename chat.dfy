/**
  The two chat loops of a node (`readData` and `writeData`, node/node.go).
  The reader takes lines from the stream with `ReadString('\n')` until a read
  comes back empty, and shows every line but a bare newline. The writer takes
  lines from the terminal and writes each one with an extra newline, flushing
  after each, until the terminal read fails.
 */
module Chat {

  /** A line as `ReadString('\n')` returns it without error: it ends with its only newline. */
  predicate IsLine(l: string)
  {
    |l| > 0 && l[|l| - 1] == '\n' && '\n' !in l[..|l| - 1]
  }

  /**
    One `ReadString('\n')` on what is left of the stream: the text up to and
    including the first newline, or all that is left when there is none (the
    end of the stream), together with what remains after it.
   */
  function NextLine(s: string): (r: (string, string))
    ensures r.0 + r.1 == s
    ensures s != [] ==> r.0 != []
    ensures IsLine(r.0) || ('\n' !in r.0 && r.1 == [])
    decreases |s|
  {
    if s == [] then ("", "")
    else if s[0] == '\n' then ("\n", s[1..])
    else
      var next := NextLine(s[1..]);
      var l := [s[0]] + next.0;
      assert next.0 != [] ==> l[..|l| - 1] == [s[0]] + next.0[..|next.0| - 1];
      assert s == [s[0]] + s[1..];
      (l, next.1)
  }

  /** The strings in order, concatenated. */
  function Concat(ls: seq<string>): string
  {
    if ls == [] then "" else ls[0] + Concat(ls[1..])
  }

  /**
    The successive results of `ReadString('\n')` on a stream whose content is
    `s`, up to the first empty read: none of them is empty, and together they
    are the whole stream.
   */
  function Reads(s: string): (rs: seq<string>)
    ensures forall i :: 0 <= i < |rs| ==> rs[i] != ""
    ensures Concat(rs) == s
    decreases |s|
  {
    if s == [] then []
    else
      var r := NextLine(s);
      var rest := Reads(r.1);
      assert ([r.0] + rest)[1..] == rest;
      [r.0] + rest
  }

  /** The lines the reader shows: all but the bare newlines, in order. */
  function Forwarded(ls: seq<string>): seq<string>
  {
    if ls == [] then [] else (if ls[0] == "\n" then [] else [ls[0]]) + Forwarded(ls[1..])
  }

  lemma {:induction false} ForwardedAppend(a: seq<string>, b: seq<string>)
    ensures Forwarded(a + b) == Forwarded(a) + Forwarded(b)
    decreases |a|
  {
    if a == [] {
      assert a + b == b;
    } else {
      assert (a + b)[1..] == a[1..] + b;
      ForwardedAppend(a[1..], b);
    }
  }

  /** The reader shows exactly the lines that are not a bare newline. */
  lemma {:induction false} ForwardedMembers(ls: seq<string>, x: string)
    ensures x in Forwarded(ls) <==> x in ls && x != "\n"
    decreases |ls|
  {
    if ls != [] {
      ForwardedMembers(ls[1..], x);
      assert ls == [ls[0]] + ls[1..];
    }
  }

  /** Showing is idempotent: what is shown holds no bare newline left to drop. */
  lemma {:induction false} ForwardedIdempotent(ls: seq<string>)
    ensures Forwarded(Forwarded(ls)) == Forwarded(ls)
    decreases |ls|
  {
    if ls != [] {
      ForwardedIdempotent(ls[1..]);
      var head := if ls[0] == "\n" then [] else [ls[0]];
      ForwardedAppend(head, Forwarded(ls[1..]));
    }
  }

  /** One read step: what the reader shows of `s` is what it shows of its next read, then of the rest. */
  lemma ReadStep(s: string)
    requires s != []
    ensures Forwarded(Reads(s))
         == (if NextLine(s).0 == "\n" then [] else [NextLine(s).0]) + Forwarded(Reads(NextLine(s).1))
  {
    var r := NextLine(s);
    assert Reads(s) == [r.0] + Reads(r.1);
    assert ([r.0] + Reads(r.1))[1..] == Reads(r.1);
  }

  /** `readData`: read lines until an empty read, showing every line but a bare newline. */
  method ReadData(stream: string) returns (shown: seq<string>)
    ensures shown == Forwarded(Reads(stream))
  {
    var rest := stream;
    shown := [];
    ghost var all := Forwarded(Reads(stream));
    while true
      invariant shown + Forwarded(Reads(rest)) == all
      decreases |rest|
    {
      var r := NextLine(rest);
      var str := r.0;
      if str == "" {
        assert rest == [];
        return;
      }
      ReadStep(rest);
      ghost var tail := Forwarded(Reads(r.1));
      if str != "\n" {
        assert shown + ([str] + tail) == (shown + [str]) + tail;
        shown := shown + [str];
      } else {
        assert [] + tail == tail;
      }
      rest := r.1;
    }
  }

  /** One `ReadString('\n')` on the terminal; on an error the partial text it returns is discarded. */
  datatype Input = Read(text: string) | ReadError

  /** What the writer does to the stream. */
  datatype WireOp = Put(data: string) | Flush

  /** The terminal lines read before the first failed read: the ones the writer sends. */
  function Accepted(stdin: seq<Input>): (ls: seq<string>)
    ensures |ls| <= |stdin|
    ensures forall i :: 0 <= i < |ls| ==> stdin[i] == Read(ls[i])
    ensures |ls| < |stdin| ==> stdin[|ls|] == ReadError
    decreases |stdin|
  {
    if stdin == [] || stdin[0].ReadError? then []
    else
      var rest := Accepted(stdin[1..]);
      assert forall i :: 1 <= i < 1 + |rest| ==> stdin[i] == stdin[1..][i - 1];
      [stdin[0].text] + rest
  }

  /** The bytes the writer puts on the stream for the lines `ls`: each line followed by an extra newline. */
  function Typed(ls: seq<string>): string
  {
    if ls == [] then "" else ls[0] + "\n" + Typed(ls[1..])
  }

  /** The bytes a sequence of writer operations puts on the stream. */
  function Wire(ops: seq<WireOp>): string
  {
    if ops == [] then "" else (if ops[0].Put? then ops[0].data else "") + Wire(ops[1..])
  }

  lemma {:induction false} TypedSnoc(ls: seq<string>, l: string)
    ensures Typed(ls + [l]) == Typed(ls) + l + "\n"
    decreases |ls|
  {
    if ls == [] {
      assert [l][1..] == [];
    } else {
      assert (ls + [l])[1..] == ls[1..] + [l];
      TypedSnoc(ls[1..], l);
    }
  }

  lemma {:induction false} WireAppend(a: seq<WireOp>, b: seq<WireOp>)
    ensures Wire(a + b) == Wire(a) + Wire(b)
    decreases |a|
  {
    if a == [] {
      assert a + b == b;
    } else {
      assert (a + b)[1..] == a[1..] + b;
      WireAppend(a[1..], b);
    }
  }

  lemma WireSnoc(ops: seq<WireOp>, data: string)
    ensures Wire(ops + [Put(data), Flush]) == Wire(ops) + data
  {
    WireAppend(ops, [Put(data), Flush]);
    var tail: seq<WireOp> := [Flush];
    assert Wire(tail) == "" by {
      assert tail[1..] == [];
    }
    assert [Put(data), Flush][1..] == tail;
  }

  /**
    `writeData`: for every terminal line read before the first failed read, write
    the line and an extra newline, then flush.
   */
  method WriteData(stdin: seq<Input>) returns (ops: seq<WireOp>)
    ensures |ops| == 2 * |Accepted(stdin)|
    ensures forall i :: 0 <= i < |Accepted(stdin)| ==>
      ops[2 * i] == Put(Accepted(stdin)[i] + "\n") && ops[2 * i + 1] == Flush
    ensures Wire(ops) == Typed(Accepted(stdin))
  {
    ops := [];
    ghost var lines: seq<string> := [];
    var i := 0;
    while i < |stdin|
      invariant 0 <= i <= |stdin| && |lines| == i && |ops| == 2 * i
      invariant forall j :: 0 <= j < i ==> stdin[j] == Read(lines[j])
      invariant forall j :: 0 <= j < i ==> ops[2 * j] == Put(lines[j] + "\n") && ops[2 * j + 1] == Flush
      invariant Wire(ops) == Typed(lines)
    {
      match stdin[i]
      case ReadError =>
        break;
      case Read(sendData) =>
        WireSnoc(ops, sendData + "\n");
        TypedSnoc(lines, sendData);
        assert sendData + "\n" + "" == sendData + "\n";
        ops := ops + [Put(sendData + "\n"), Flush];
        lines := lines + [sendData];
        i := i + 1;
    }
    assert |Accepted(stdin)| == i;
    assert lines == Accepted(stdin);
  }

  /** A complete line at the front of the stream is exactly what the next read returns. */
  lemma {:induction false} NextLineOfLine(l: string, rest: string)
    requires IsLine(l)
    ensures NextLine(l + rest) == (l, rest)
    decreases |l|
  {
    var s := l + rest;
    if l[0] != '\n' {
      var t := l[1..];
      assert |l| > 1;
      assert t[..|t| - 1] == l[1..|l| - 1];
      assert IsLine(t);
      assert s[1..] == t + rest;
      NextLineOfLine(t, rest);
      assert [l[0]] + t == l;
    } else {
      assert |l| == 1;
      assert s[1..] == rest;
    }
  }

  lemma ReadsAfterLine(l: string, rest: string)
    requires IsLine(l)
    ensures Reads(l + rest) == [l] + Reads(rest)
  {
    NextLineOfLine(l, rest);
  }

  /** The writer's bytes for a complete first line read back as that line and then a bare newline. */
  lemma TypedCons(ls: seq<string>)
    requires ls != []
    ensures Typed(ls) == ls[0] + ("\n" + Typed(ls[1..]))
  {
  }

  lemma NewlineIsLine()
    ensures IsLine("\n")
  {
    var nl := "\n";
    assert nl[..0] == [];
  }

  lemma ReadsTwo(a: string, t: string)
    requires IsLine(a)
    ensures Reads(a + ("\n" + t)) == [a, "\n"] + Reads(t)
  {
    NewlineIsLine();
    ReadsAfterLine(a, "\n" + t);
    ReadsAfterLine("\n", t);
    var rt := Reads(t);
    assert [a] + (["\n"] + rt) == [a, "\n"] + rt;
  }

  lemma ReadsTyped(ls: seq<string>)
    requires ls != [] && IsLine(ls[0])
    ensures Reads(Typed(ls)) == [ls[0], "\n"] + Reads(Typed(ls[1..]))
  {
    TypedCons(ls);
    ReadsTwo(ls[0], Typed(ls[1..]));
  }

  /**
    The two loops fit together: when the reader reads what the writer wrote for
    complete terminal lines, it shows exactly those lines, in order, except the
    empty ones; the extra newline the writer adds is read as a bare newline and
    dropped.
   */
  lemma {:induction false} ChatRoundTrip(ls: seq<string>)
    requires forall i :: 0 <= i < |ls| ==> IsLine(ls[i])
    ensures Forwarded(Reads(Typed(ls))) == Forwarded(ls)
    decreases |ls|
  {
    if ls != [] {
      ReadsTyped(ls);
      ChatRoundTrip(ls[1..]);
      ForwardedAppend([ls[0], "\n"], Reads(Typed(ls[1..])));
      ForwardedAppend([ls[0]], ls[1..]);
      assert [ls[0]] + ls[1..] == ls;
      assert Forwarded([ls[0], "\n"]) == Forwarded([ls[0]]) by {
        ForwardedAppend([ls[0]], ["\n"]);
        assert [ls[0]] + ["\n"] == [ls[0], "\n"];
      }
    }
  }
}
