/** The streaming line splitter of the observatory's log reader: chunks of a byte stream come
    in as they arrive and complete lines go out. `trim` is the whitespace trimming applied to
    each line and `accepts` whether the line handler returns without error; the results hold
    for any such functions. */
module EventLines {
  import opened Common

  type Bytes = seq<byte>

  const NEWLINE: byte := 10

  // ---------- the batch view ----------

  /** The index of the first newline, if any. */
  function IndexOf(s: Bytes, from: nat): (r: Option<nat>)
    requires from <= |s|
    ensures r.Some? ==> from <= r.value < |s| && s[r.value] == NEWLINE
    ensures r.Some? ==> forall i | from <= i < r.value :: s[i] != NEWLINE
    ensures r.None? ==> forall i | from <= i < |s| :: s[i] != NEWLINE
    decreases |s| - from
  {
    if from == |s| then None else if s[from] == NEWLINE then Some(from) else IndexOf(s, from + 1)
  }

  /** The parts of the stream that a newline terminates, in order. */
  function Complete(s: Bytes): (parts: seq<Bytes>) {
    match IndexOf(s, 0)
    case None => []
    case Some(i) => [s[..i]] + Complete(s[i + 1..])
  }

  /** What follows the last newline. */
  function Tail(s: Bytes): (tail: Bytes)
    ensures IndexOf(tail, 0).None?
  {
    match IndexOf(s, 0)
    case None => s
    case Some(i) => Tail(s[i + 1..])
  }

  function Line(trim: Bytes -> Bytes, part: Bytes): seq<Bytes> {
    if trim(part) == [] then [] else [trim(part)]
  }

  /** Trim each part and drop the empty ones. */
  function Clean(trim: Bytes -> Bytes, parts: seq<Bytes>): seq<Bytes> {
    if parts == [] then [] else Line(trim, parts[0]) + Clean(trim, parts[1..])
  }

  /** The lines of a whole stream. */
  function Lines(trim: Bytes -> Bytes, s: Bytes): seq<Bytes> {
    Clean(trim, Complete(s)) + Line(trim, Tail(s))
  }

  /** The lines that reach the handler: up to and including the first it does not accept. */
  function Handled(accepts: Bytes -> bool, lines: seq<Bytes>): seq<Bytes> {
    if lines == [] then []
    else if !accepts(lines[0]) then [lines[0]]
    else [lines[0]] + Handled(accepts, lines[1..])
  }

  predicate AllAccepted(accepts: Bytes -> bool, lines: seq<Bytes>) {
    forall l | l in lines :: accepts(l)
  }

  // ---------- the batch view is the newline split ----------

  function Join(parts: seq<Bytes>): Bytes {
    if parts == [] then [] else parts[0] + ([NEWLINE] + Join(parts[1..]))
  }

  predicate NoNewlines(parts: seq<Bytes>) {
    forall p | p in parts :: NEWLINE !in p
  }

  lemma {:induction false} JoinCons(first: Bytes, parts: seq<Bytes>, tail: Bytes)
    ensures Join([first] + parts) + tail == first + ([NEWLINE] + (Join(parts) + tail))
  {
    assert ([first] + parts)[1..] == parts;
  }

  lemma CutAt(s: Bytes, i: nat)
    requires i < |s| && s[i] == NEWLINE
    ensures s == s[..i] + ([NEWLINE] + s[i + 1..])
  {
  }

  /** Joining the parts again gives the stream, and no part holds a newline. */
  lemma {:induction false} SplitJoins(s: Bytes)
    ensures Join(Complete(s)) + Tail(s) == s
    ensures NoNewlines(Complete(s)) && NEWLINE !in Tail(s)
  {
    JoinsBack(s);
    HoldNoNewline(s);
  }

  lemma {:induction false} JoinsBack(s: Bytes)
    ensures Join(Complete(s)) + Tail(s) == s
    decreases |s|
  {
    var i := IndexOf(s, 0);
    if i.Some? {
      var rest := s[i.value + 1..];
      JoinsBack(rest);
      JoinCons(s[..i.value], Complete(rest), Tail(rest));
      CutAt(s, i.value);
    }
  }

  lemma {:induction false} HoldNoNewline(s: Bytes)
    ensures NoNewlines(Complete(s)) && NEWLINE !in Tail(s)
    decreases |s|
  {
    var i := IndexOf(s, 0);
    if i.Some? {
      HoldNoNewline(s[i.value + 1..]);
    }
  }

  /** There is only one such way to cut a stream. */
  lemma {:induction false} SplitIsUnique(parts: seq<Bytes>, tail: Bytes)
    requires NoNewlines(parts) && NEWLINE !in tail
    ensures Complete(Join(parts) + tail) == parts && Tail(Join(parts) + tail) == tail
  {
    if parts == [] {
      assert Join(parts) + tail == tail;
    } else {
      var first, rest := parts[0], parts[1..];
      assert first in parts && [first] + rest == parts;
      SplitIsUnique(rest, tail);
      JoinCons(first, rest, tail);
      SplitFirst(first, Join(rest) + tail);
    }
  }

  lemma {:induction false} SplitFirst(first: Bytes, rest: Bytes)
    requires NEWLINE !in first
    ensures var s := first + ([NEWLINE] + rest); Complete(s) == [first] + Complete(rest) && Tail(s) == Tail(rest)
  {
    var p := [NEWLINE] + rest;
    FirstLine(first, p, 0);
    assert p[..0] == [] && first + [] == first && p[1..] == rest;
  }

  /** The lines are the trimmed parts that are not empty, the unterminated one included. */
  lemma {:induction false} CleanAre(trim: Bytes -> Bytes, parts: seq<Bytes>, line: Bytes)
    ensures line in Clean(trim, parts) <==> line != [] && exists p | p in parts :: trim(p) == line
  {
    if parts != [] {
      CleanAre(trim, parts[1..], line);
      assert parts == [parts[0]] + parts[1..];
    }
  }

  lemma {:induction false} LinesAre(trim: Bytes -> Bytes, s: Bytes, line: Bytes)
    ensures line in Lines(trim, s) <==>
      line != [] && ((exists p | p in Complete(s) :: trim(p) == line) || trim(Tail(s)) == line)
  {
    CleanAre(trim, Complete(s), line);
  }

  /** What is handled is a start of the lines; all but its last line were accepted, and it stops
      short of the rest only at a refused line. */
  lemma {:induction false} HandledIs(accepts: Bytes -> bool, lines: seq<Bytes>)
    ensures Handled(accepts, lines) <= lines && (lines != [] ==> Handled(accepts, lines) != [])
    ensures forall i | 0 <= i < |Handled(accepts, lines)| - 1 :: accepts(lines[i])
    ensures var n := |Handled(accepts, lines)|; n < |lines| ==> !accepts(lines[n - 1])
  {
    if lines != [] && accepts(lines[0]) {
      HandledIs(accepts, lines[1..]);
      assert lines == [lines[0]] + lines[1..];
      forall i | 0 <= i < |Handled(accepts, lines)| - 1
        ensures accepts(lines[i])
      {
        if i > 0 {
          assert lines[i] == lines[1..][i - 1];
        }
      }
    }
  }

  // ---------- how the batch view grows ----------

  lemma {:induction false} NoNewline(buffer: Bytes, p: Bytes)
    requires IndexOf(buffer, 0).None? && IndexOf(p, 0).None?
    ensures IndexOf(buffer + p, 0).None?
  {
    forall i | 0 <= i < |buffer + p|
      ensures (buffer + p)[i] != NEWLINE
    {
      if i >= |buffer| {
        assert (buffer + p)[i] == p[i - |buffer|];
      }
    }
  }

  lemma {:induction false} IndexIs(s: Bytes, k: nat)
    requires k < |s| && s[k] == NEWLINE && forall j | 0 <= j < k :: s[j] != NEWLINE
    ensures IndexOf(s, 0) == Some(k)
  {
  }

  lemma FirstLine(buffer: Bytes, p: Bytes, i: nat)
    requires IndexOf(buffer, 0).None? && IndexOf(p, 0) == Some(i)
    ensures Complete(buffer + p) == [buffer + p[..i]] + Complete(p[i + 1..])
    ensures Tail(buffer + p) == Tail(p[i + 1..])
  {
    FirstNewline(buffer, p, i);
    var s, k := buffer + p, |buffer| + i;
    assert s[..k] == buffer + p[..i] && s[k + 1..] == p[i + 1..];
  }

  lemma {:induction false} FirstNewline(buffer: Bytes, p: Bytes, i: nat)
    requires IndexOf(buffer, 0).None? && IndexOf(p, 0) == Some(i)
    ensures IndexOf(buffer + p, 0) == Some(|buffer| + i)
  {
    var s, k := buffer + p, |buffer| + i;
    assert s[k] == NEWLINE;
    forall j | 0 <= j < k
      ensures s[j] != NEWLINE
    {
      if j >= |buffer| {
        assert s[j] == p[j - |buffer|];
      }
    }
    IndexIs(s, k);
  }

  /** Appending to a stream only touches what follows its last newline. */
  lemma {:induction false} SplitAppend(s: Bytes, t: Bytes)
    ensures Complete(s + t) == Complete(s) + Complete(Tail(s) + t)
    ensures Tail(s + t) == Tail(Tail(s) + t)
    decreases |s|
  {
    var i := IndexOf(s, 0);
    if i.Some? {
      var rest := s[i.value + 1..];
      SplitAppend(rest, t);
      IndexIs(s + t, i.value);
      AppendSlices(s, t, i.value);
    }
  }

  lemma AppendSlices(s: Bytes, t: Bytes, i: nat)
    requires i < |s|
    ensures (s + t)[..i] == s[..i] && (s + t)[i + 1..] == s[i + 1..] + t
  {
  }

  lemma {:induction false} CleanConcat(trim: Bytes -> Bytes, a: seq<Bytes>, b: seq<Bytes>)
    ensures Clean(trim, a + b) == Clean(trim, a) + Clean(trim, b)
  {
    if a == [] {
      assert a + b == b;
    } else {
      assert (a + b)[1..] == a[1..] + b;
      CleanConcat(trim, a[1..], b);
    }
  }

  lemma CleanOne(trim: Bytes -> Bytes, part: Bytes)
    ensures Clean(trim, [part]) == Line(trim, part)
  {
    assert [part][1..] == [];
  }

  lemma AllAcceptedConcat(accepts: Bytes -> bool, a: seq<Bytes>, b: seq<Bytes>)
    ensures AllAccepted(accepts, a + b) <==> AllAccepted(accepts, a) && AllAccepted(accepts, b)
  {
  }

  /** Lines before the first refused one are all handled; nothing after it is. */
  lemma {:induction false} HandledConcat(accepts: Bytes -> bool, a: seq<Bytes>, b: seq<Bytes>)
    ensures Handled(accepts, a + b) == if AllAccepted(accepts, a) then a + Handled(accepts, b) else Handled(accepts, a)
  {
    if a == [] {
      assert a + b == b;
    } else {
      TailOfConcat(a, b);
      HandledConcat(accepts, a[1..], b);
      AllAcceptedCons(accepts, a);
    }
  }

  lemma TailOfConcat(a: seq<Bytes>, b: seq<Bytes>)
    requires a != []
    ensures a + b != [] && (a + b)[0] == a[0] && (a + b)[1..] == a[1..] + b && a == [a[0]] + a[1..]
    ensures forall c: seq<Bytes> :: [a[0]] + (a[1..] + c) == a + c
  {
    forall c: seq<Bytes>
      ensures [a[0]] + (a[1..] + c) == a + c
    {
      assert a == [a[0]] + a[1..];
    }
  }

  lemma AllAcceptedCons(accepts: Bytes -> bool, lines: seq<Bytes>)
    requires lines != []
    ensures AllAccepted(accepts, lines) <==> accepts(lines[0]) && AllAccepted(accepts, lines[1..])
  {
    assert lines == [lines[0]] + lines[1..];
    AllAcceptedConcat(accepts, [lines[0]], lines[1..]);
  }

  lemma {:induction false} AllHandled(accepts: Bytes -> bool, lines: seq<Bytes>)
    requires AllAccepted(accepts, lines)
    ensures Handled(accepts, lines) == lines
  {
    HandledConcat(accepts, lines, []);
    assert lines + [] == lines;
  }

  /** The lines of two stretches of complete parts, one after the other. */
  lemma {:induction false} Extend(trim: Bytes -> Bytes, accepts: Bytes -> bool, done: seq<Bytes>, more: seq<Bytes>)
    requires AllAccepted(accepts, Clean(trim, done))
    ensures Clean(trim, done + more) == Clean(trim, done) + Clean(trim, more)
    ensures Handled(accepts, Clean(trim, done + more)) == Clean(trim, done) + Handled(accepts, Clean(trim, more))
    ensures AllAccepted(accepts, Clean(trim, done + more)) <==> AllAccepted(accepts, Clean(trim, more))
  {
    CleanConcat(trim, done, more);
    HandledConcat(accepts, Clean(trim, done), Clean(trim, more));
    AllAcceptedConcat(accepts, Clean(trim, done), Clean(trim, more));
  }

  /** A refused line ends the handling. */
  lemma {:induction false} StoppedAt(trim: Bytes -> Bytes, accepts: Bytes -> bool, part: Bytes, more: seq<Bytes>)
    requires trim(part) != [] && !accepts(trim(part))
    ensures var lines := Clean(trim, [part] + more);
      Handled(accepts, lines) == [trim(part)] && !AllAccepted(accepts, lines)
  {
    var line := [trim(part)];
    CleanConcat(trim, [part], more);
    CleanOne(trim, part);
    assert line[0] in line;
    HandledConcat(accepts, line, Clean(trim, more));
    AllAcceptedConcat(accepts, line, Clean(trim, more));
    assert !AllAccepted(accepts, line);
  }

  /** One turn of the writing loop: the next line is taken off the stream, after `done`. */
  lemma {:induction false} LineTaken(all: Bytes, done: seq<Bytes>, buffer: Bytes, p: Bytes, i: nat)
    requires IndexOf(buffer, 0).None? && IndexOf(p, 0) == Some(i)
    requires Complete(all) == done + Complete(buffer + p) && Tail(all) == Tail(buffer + p)
    ensures Complete(all) == done + [buffer + p[..i]] + Complete(p[i + 1..]) && Tail(all) == Tail(p[i + 1..])
  {
    FirstLine(buffer, p, i);
  }

  lemma {:induction false} NothingLeft(all: Bytes, done: seq<Bytes>, buffer: Bytes)
    requires IndexOf(buffer, 0).None? && Complete(all) == done + Complete(buffer) && Tail(all) == Tail(buffer)
    ensures Complete(all) == done && Tail(all) == buffer
  {
    assert done + [] == done;
  }

  lemma {:induction false} LineAccepted(trim: Bytes -> Bytes, accepts: Bytes -> bool, done: seq<Bytes>, part: Bytes)
    requires AllAccepted(accepts, Clean(trim, done)) && (Line(trim, part) == [] || accepts(trim(part)))
    ensures Clean(trim, done + [part]) == Clean(trim, done) + Line(trim, part)
    ensures AllAccepted(accepts, Clean(trim, done + [part]))
  {
    CleanOne(trim, part);
    Extend(trim, accepts, done, [part]);
  }

  lemma {:induction false} LineRefused(
    trim: Bytes -> Bytes, accepts: Bytes -> bool, done: seq<Bytes>, part: Bytes, more: seq<Bytes>)
    requires AllAccepted(accepts, Clean(trim, done)) && Line(trim, part) != [] && !accepts(trim(part))
    ensures Handled(accepts, Clean(trim, done + [part] + more)) == Clean(trim, done) + Line(trim, part)
    ensures !AllAccepted(accepts, Clean(trim, done + [part] + more))
  {
    var rest := [part] + more;
    StoppedAt(trim, accepts, part, more);
    Extend(trim, accepts, done, rest);
    Associative(done, [part], more);
  }

  lemma Associative(a: seq<Bytes>, b: seq<Bytes>, c: seq<Bytes>)
    ensures (a + b) + c == a + (b + c)
  {
  }

  // ---------- the writer ----------

  class EventLineWriter {
    const trim: Bytes -> Bytes
    const accepts: Bytes -> bool
    var buffer: Bytes
    var handled: seq<Bytes>

    constructor (trim: Bytes -> Bytes, accepts: Bytes -> bool)
      ensures this.trim == trim && this.accepts == accepts && buffer == [] && handled == []
    {
      this.trim, this.accepts, buffer, handled := trim, accepts, [], [];
    }

    /** One line: trimmed, and handed over unless it is empty. */
    method Emit() returns (ok: bool)
      modifies this
      ensures buffer == []
      ensures handled == old(handled) + Line(trim, old(buffer))
      ensures ok == (Line(trim, old(buffer)) == [] || accepts(trim(old(buffer))))
    {
      var line := trim(buffer);
      buffer := [];
      ok := true;
      if |line| > 0 {
        handled := handled + [line];
        ok := accepts(line);
      }
    }

    /** Write: everything up to the last newline of buffer + chunk is handed over, line by line;
        what follows stays buffered. A handler error stops it, and the rest of the chunk is
        lost. */
    method Write(chunk: Bytes) returns (written: nat, ok: bool)
      requires IndexOf(buffer, 0).None?
      modifies this
      ensures var lines := Clean(trim, Complete(old(buffer) + chunk));
        && handled == old(handled) + Handled(accepts, lines)
        && ok == AllAccepted(accepts, lines)
      ensures ok ==> buffer == Tail(old(buffer) + chunk) && written == |chunk|
      ensures !ok ==> buffer == [] && written == 0
    {
      var p := chunk;
      ghost var all := buffer + chunk;
      ghost var done: seq<Bytes>, emitted: seq<Bytes> := [], [];
      while |p| > 0
        invariant IndexOf(buffer, 0).None?
        invariant Complete(all) == done + Complete(buffer + p) && Tail(all) == Tail(buffer + p)
        invariant emitted == Clean(trim, done) && AllAccepted(accepts, emitted)
        invariant handled == old(handled) + emitted
        decreases |p|
      {
        var index := IndexOf(p, 0);
        if index.None? {
          NoNewline(buffer, p);
          buffer := buffer + p;
          p := [];
          assert buffer + p == buffer;
          break;
        }
        var part := buffer + p[..index.value];
        LineTaken(all, done, buffer, p, index.value);
        buffer := part;
        p := p[index.value + 1..];
        ok := Emit();
        Associative(old(handled), emitted, Line(trim, part));
        emitted := emitted + Line(trim, part);
        if !ok {
          LineRefused(trim, accepts, done, part, Complete(p));
          return 0, false;
        }
        LineAccepted(trim, accepts, done, part);
        assert buffer + p == p;
        done := done + [part];
      }
      assert buffer + p == buffer;
      NothingLeft(all, done, buffer);
      AllHandled(accepts, emitted);
      return |chunk|, true;
    }

    /** Flush: the last, unterminated line. */
    method Flush() returns (ok: bool)
      requires trim([]) == []
      modifies this
      ensures buffer == []
      ensures handled == old(handled) + Line(trim, old(buffer))
      ensures ok == AllAccepted(accepts, Line(trim, old(buffer)))
    {
      ok := true;
      if |buffer| == 0 {
        return;
      }
      ok := Emit();
    }
  }

  // ---------- streaming equals batch ----------

  function Concat(chunks: seq<Bytes>): Bytes {
    if chunks == [] then [] else Concat(chunks[..|chunks| - 1]) + chunks[|chunks| - 1]
  }

  lemma {:induction false} ConcatPrefix(chunks: seq<Bytes>, k: nat) returns (rest: Bytes)
    requires k <= |chunks|
    ensures Concat(chunks) == Concat(chunks[..k]) + rest
  {
    if k == |chunks| {
      assert chunks[..k] == chunks;
      rest := [];
    } else {
      var front := chunks[..|chunks| - 1];
      assert front[..k] == chunks[..k];
      var r := ConcatPrefix(front, k);
      rest := r + chunks[|chunks| - 1];
    }
  }

  /** If the complete lines of a prefix of the stream were not all accepted, nothing that
      follows changes what was handled. */
  lemma {:induction false} RestIsIgnored(trim: Bytes -> Bytes, accepts: Bytes -> bool, s: Bytes, rest: Bytes)
    requires !AllAccepted(accepts, Clean(trim, Complete(s)))
    ensures Handled(accepts, Lines(trim, s + rest)) == Handled(accepts, Clean(trim, Complete(s)))
    ensures Handled(accepts, Clean(trim, Complete(s + rest))) == Handled(accepts, Clean(trim, Complete(s)))
    ensures !AllAccepted(accepts, Lines(trim, s + rest))
  {
    var first := Clean(trim, Complete(s));
    var more := Complete(Tail(s) + rest);
    var later := Clean(trim, more) + Line(trim, Tail(s + rest));
    SplitAppend(s, rest);
    CleanConcat(trim, Complete(s), more);
    assert Lines(trim, s + rest) == first + later;
    HandledConcat(accepts, first, later);
    HandledConcat(accepts, first, Clean(trim, more));
    AllAcceptedConcat(accepts, first, later);
  }

  lemma {:induction false} StoppedEarly(trim: Bytes -> Bytes, accepts: Bytes -> bool, chunks: seq<Bytes>, k: nat)
    requires k <= |chunks| && !AllAccepted(accepts, Clean(trim, Complete(Concat(chunks[..k]))))
    ensures var handled := Handled(accepts, Clean(trim, Complete(Concat(chunks[..k]))));
      && Handled(accepts, Lines(trim, Concat(chunks))) == handled
      && Handled(accepts, Clean(trim, Complete(Concat(chunks)))) == handled
      && !AllAccepted(accepts, Lines(trim, Concat(chunks)))
  {
    var rest := ConcatPrefix(chunks, k);
    RestIsIgnored(trim, accepts, Concat(chunks[..k]), rest);
  }

  /** What one more chunk adds to the batch view. */
  lemma {:induction false} ChunkExtends(trim: Bytes -> Bytes, accepts: Bytes -> bool, s: Bytes, chunk: Bytes)
    requires AllAccepted(accepts, Clean(trim, Complete(s)))
    ensures var lines := Clean(trim, Complete(Tail(s) + chunk)); var all := Clean(trim, Complete(s + chunk));
      && Handled(accepts, all) == Clean(trim, Complete(s)) + Handled(accepts, lines)
      && (AllAccepted(accepts, all) <==> AllAccepted(accepts, lines))
    ensures Tail(s + chunk) == Tail(Tail(s) + chunk)
  {
    SplitAppend(s, chunk);
    Extend(trim, accepts, Complete(s), Complete(Tail(s) + chunk));
  }

  /** The last, unterminated line of a stream whose complete lines were all accepted. */
  lemma {:induction false} FlushEnds(trim: Bytes -> Bytes, accepts: Bytes -> bool, s: Bytes)
    requires AllAccepted(accepts, Clean(trim, Complete(s)))
    ensures Handled(accepts, Lines(trim, s)) == Clean(trim, Complete(s)) + Line(trim, Tail(s))
    ensures AllAccepted(accepts, Lines(trim, s)) <==> AllAccepted(accepts, Line(trim, Tail(s)))
  {
    var last := Line(trim, Tail(s));
    HandledConcat(accepts, Clean(trim, Complete(s)), last);
    AllAcceptedConcat(accepts, Clean(trim, Complete(s)), last);
    assert Handled(accepts, last) == last by {
      if last != [] {
        assert last[1..] == [];
      }
    }
  }

  /** parseEvents: the chunks are written one after the other, up to the first error, and the
      rest is flushed if there was none. However the stream was cut into chunks, the handler
      gets exactly the trimmed, non-empty lines of the whole stream, in order, up to and
      including the first that it refuses. When reading the stream fails after the chunks,
      the unterminated rest is lost. */
  method ParseEvents(trim: Bytes -> Bytes, accepts: Bytes -> bool, chunks: seq<Bytes>, readFails: bool)
    returns (handled: seq<Bytes>, ok: bool)
    requires trim([]) == []
    ensures !readFails ==> handled == Handled(accepts, Lines(trim, Concat(chunks)))
    ensures !readFails ==> ok == AllAccepted(accepts, Lines(trim, Concat(chunks)))
    ensures readFails ==> handled == Handled(accepts, Clean(trim, Complete(Concat(chunks)))) && !ok
  {
    var w := new EventLineWriter(trim, accepts);
    ghost var s: Bytes := [];
    for k := 0 to |chunks|
      invariant fresh(w) && w.trim == trim && w.accepts == accepts
      invariant s == Concat(chunks[..k]) && w.buffer == Tail(s)
      invariant AllAccepted(accepts, Clean(trim, Complete(s))) && w.handled == Clean(trim, Complete(s))
    {
      ChunkExtends(trim, accepts, s, chunks[k]);
      assert chunks[..k + 1][..k] == chunks[..k];
      s := s + chunks[k];
      var _, good := w.Write(chunks[k]);
      if !good {
        StoppedEarly(trim, accepts, chunks, k + 1);
        return w.handled, false;
      }
      AllHandled(accepts, Clean(trim, Complete(s)));
    }
    assert chunks[..|chunks|] == chunks;
    if readFails {
      AllHandled(accepts, Clean(trim, Complete(s)));
      return w.handled, false;
    }
    FlushEnds(trim, accepts, s);
    ok := w.Flush();
    handled := w.handled;
  }
}
