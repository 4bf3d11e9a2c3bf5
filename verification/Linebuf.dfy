/** Buffering received data by lines. */
module Linebuf {
  import opened CLib

  /** One trailing carriage return is not part of a line. */
  function ChopCR(l: string): string {
    if l != [] && l[|l| - 1] == '\r' then l[..|l| - 1] else l
  }

  /** A stream read character by character: the lines completed so far, and the
      characters since. */
  function Lines(s: string): seq<string> {
    if s == [] then []
    else
      var before := s[..|s| - 1];
      if s[|s| - 1] == '\n' then Lines(before) + [ChopCR(Rest(before))] else Lines(before)
  }

  function Rest(s: string): (r: string) {
    if s == [] || s[|s| - 1] == '\n' then [] else Rest(s[..|s| - 1]) + [s[|s| - 1]]
  }

  lemma LinesPlain(s: string, c: char)
    requires c != '\n'
    ensures Lines(s + [c]) == Lines(s) && Rest(s + [c]) == Rest(s) + [c]
  {
    hide ChopCR;
    assert (s + [c])[..|s|] == s;
  }

  /** A line without its line feed stays unfinished. */
  lemma {:induction false} LinesUnfinished(s: string, t: string)
    requires '\n' !in t
    ensures Lines(s + t) == Lines(s) && Rest(s + t) == Rest(s) + t
  {
    hide Lines, Rest;
    if t == [] {
      assert s + t == s;
    } else {
      var t', c := t[..|t| - 1], t[|t| - 1];
      LinesUnfinished(s, t');
      LinesPlain(s + t', c);
      assert s + t == s + t' + [c];
      assert Rest(s) + t' + [c] == Rest(s) + t;
    }
  }

  lemma LinesFinished(s: string, t: string)
    requires '\n' !in t
    ensures Lines(s + t + ['\n']) == Lines(s) + [ChopCR(Rest(s) + t)] && Rest(s + t + ['\n']) == []
  {
    hide ChopCR;
    LinesUnfinished(s, t);
    var u := s + t + ['\n'];
    assert u[..|u| - 1] == s + t;
  }

  /** How lines are kept in the buffer, each ended by a NUL. */
  function Joined(ls: seq<string>): string {
    if ls == [] then [] else Joined(ls[..|ls| - 1]) + ls[|ls| - 1] + [NUL]
  }

  lemma JoinedSnoc(ls: seq<string>, l: string)
    ensures Joined(ls + [l]) == Joined(ls) + l + [NUL]
  {
    assert (ls + [l])[..|ls|] == ls;
  }

  function Stored(s: string): string { Joined(Lines(s)) + Rest(s) }

  /** How much of the data one call takes. */
  function Consumed(data: string): (n: nat)
    ensures n <= |data|
  {
    var k := IndexOf(data, '\n');
    if k < |data| then k + 1 else |data|
  }

  function Concat(chunks: seq<string>): string {
    if chunks == [] then [] else chunks[0] + Concat(chunks[1..])
  }

  lemma {:induction false} NoNuls(s: string)
    requires NUL !in s
    ensures NUL !in Rest(s) && forall i :: 0 <= i < |Lines(s)| ==> NUL !in Lines(s)[i]
  {
    if s != [] { NoNuls(s[..|s| - 1]); }
  }

  /** The buffer after a chunk without line feed. */
  lemma StoredUnfinished(s: string, t: string)
    requires '\n' !in t
    ensures Stored(s + t) == Stored(s) + t
  {
    hide Lines, Rest, Joined;
    LinesUnfinished(s, t);
    assert Joined(Lines(s)) + (Rest(s) + t) == Stored(s) + t;
  }

  /** The buffer after a chunk that ends a line: the line feed becomes the NUL,
      unless a carriage return before it does. */
  lemma StoredFinished(s: string, t: string)
    requires '\n' !in t && NUL !in s
    ensures
      var b := Stored(s) + t;
      Stored(s + t + ['\n']) == (if b != [] && b[|b| - 1] == '\r' then b[..|b| - 1] else b) + [NUL]
  {
    hide Lines, Rest;
    LinesFinished(s, t);
    var ls, r := Lines(s), Rest(s) + t;
    var b := Joined(ls) + r;
    assert Stored(s) + t == b;
    JoinedSnoc(ls, ChopCR(r));
    if r == [] {
      JoinedEnds(ls);
    } else {
      assert b[|b| - 1] == r[|r| - 1];
      assert b[..|b| - 1] == Joined(ls) + r[..|r| - 1];
    }
  }

  lemma JoinedEnds(ls: seq<string>)
    ensures Joined(ls) != [] ==> Joined(ls)[|Joined(ls)| - 1] == NUL
  {
  }

  /** Where the last line is in the buffer. */
  lemma LastLine(s: string) returns (at: nat)
    requires s != [] && NUL !in s
    ensures
      var b := Stored(s);
      b != [] && (b[|b| - 1] == NUL <==> s[|s| - 1] == '\n')
    ensures
      var b, ls := Stored(s), Lines(s);
      s[|s| - 1] == '\n' ==>
        && ls != [] && at < |b| && b[at..|b| - 1] == ls[|ls| - 1]
        && (at > 0 ==> b[at - 1] == NUL) && forall k :: at <= k < |b| - 1 ==> b[k] != NUL
  {
    var ls := Lines(s);
    NoNuls(s);
    at := 0;
    if s[|s| - 1] == '\n' {
      var l := ls[|ls| - 1];
      var head := Joined(ls[..|ls| - 1]);
      JoinedEnds(ls[..|ls| - 1]);
      at := |head|;
      assert Stored(s) == head + l + [NUL];
    }
  }

  /** The lines completed by one call. */
  lemma LinesConsumed(s: string, data: string)
    requires data != []
    ensures var k := Consumed(data);
      Lines(s + data[..k]) == Lines(s) + if data[k - 1] == '\n' then [ChopCR(Rest(s) + data[..k - 1])] else []
  {
    hide ChopCR, IndexOf, Lines, Rest;
    var k := Consumed(data);
    if data[k - 1] == '\n' {
      LinesFinished(s, data[..k - 1]);
      assert s + data[..k] == s + data[..k - 1] + ['\n'];
    } else {
      LinesUnfinished(s, data[..k]);
    }
  }

  datatype Outcome = Ok(n: nat) | Invalid | NoMemory

  class LineBuffer {
    /** The allocated storage, its used length and what the last call took. */
    var data: string
    var len: nat
    var consumed: nat
    /** Everything consumed since the buffer was last emptied. */
    ghost var input: string

    ghost predicate Valid()
      reads this
    {
      && len <= |data| && data[..len] == Stored(input)
      && NUL !in input && consumed <= |input|
    }

    constructor ()
      ensures Valid() && input == [] && consumed == 0
    {
      data, len, consumed, input := [], 0, 0, [];
    }

    method EmptyLineBuffer()
      modifies this
      ensures Valid() && input == [] && consumed == 0
    {
      data, len, consumed, input := [], 0, 0, [];
    }

    method LineBuffer(chunk: string, memory: bool) returns (r: Outcome)
      requires Valid()
      modifies this
      ensures Valid()
      ensures r.Invalid? <==> NUL in chunk[..Consumed(chunk)]
      ensures r.NoMemory? <==> !memory && NUL !in chunk[..Consumed(chunk)]
      ensures !r.Ok? ==> input == old(input) && consumed == old(consumed) && data == old(data) && len == old(len)
      ensures r.Ok? ==> r.n == consumed == Consumed(chunk) && input == old(input) + chunk[..r.n]
    {
      hide Stored;
      var eol := IndexOf(chunk, '\n');
      var consume := if eol < |chunk| then eol + 1 else |chunk|;
      if IndexOf(chunk[..consume], NUL) < consume {
        assert chunk[..consume][IndexOf(chunk[..consume], NUL)] == NUL;
        return Invalid;
      }
      if !memory { return NoMemory; }
      ghost var b := Stored(input) + chunk[..eol];
      var newLen := len + consume;
      data := data[..len] + chunk[..consume] + [NUL];
      len := newLen;
      if eol < |chunk| {
        StoredFinished(input, chunk[..eol]);
        assert chunk[..consume] == chunk[..eol] + ['\n'];
        assert data[..len] == b + ['\n'];
        assert input + chunk[..consume] == input + chunk[..eol] + ['\n'];
        data := data[len - 1 := NUL];
        assert data[..len] == b + [NUL];
        if len > 1 && data[len - 2] == '\r' {
          data := data[len - 2 := NUL];
          len := len - 1;
          assert data[..len] == b[..|b| - 1] + [NUL];
        }
      } else {
        StoredUnfinished(input, chunk);
        assert chunk[..consume] == chunk;
      }
      input := input + chunk[..consume];
      consumed := consume;
      return Ok(consume);
    }

    /** The line completed by the last call, if it completed one. */
    method BufferedLine() returns (r: Option<string>)
      requires Valid()
      ensures consumed > 0 && input[|input| - 1] == '\n' ==>
        Lines(input) != [] && r == Some(Lines(input)[|Lines(input)| - 1])
      ensures consumed == 0 || input[|input| - 1] != '\n' ==> r == None
    {
      hide Stored, Lines, IndexOf;
      ghost var at := 0;
      if consumed > 0 { at := LastLine(input); }
      ghost var b := data[..len];
      assert b == Stored(input);
      assert forall k :: 0 <= k < len ==> b[k] == data[k];
      if len == 0 || consumed == 0 || data[len - 1] != NUL {
        return None;
      }
      var line := len - 1;
      while line > 0 && data[line - 1] != NUL
        invariant 0 <= line < len
        invariant forall k :: line <= k < len - 1 ==> data[k] != NUL
      {
        line := line - 1;
      }
      assert line == at;
      assert data[line..len - 1] == b[at..len - 1];
      return Some(data[line..len - 1]);
    }
  }

  /** A caller that hands over what it has received, again and again until all of it
      is consumed, and takes the line that is ready after each call: the lines are
      those of the whole stream, however it was cut up. */
  method ReceiveLines(chunks: seq<string>) returns (lines: seq<string>)
    requires forall i :: 0 <= i < |chunks| ==> NUL !in chunks[i]
    ensures lines == Lines(Concat(chunks))
  {
    hide Lines, Rest, Stored, IndexOf, ChopCR;
    var buffer := new LineBuffer();
    lines := [];
    LinesNone();
    var i := 0;
    assert chunks[0..] == chunks;
    while i < |chunks|
      invariant 0 <= i <= |chunks| && buffer.Valid() && fresh(buffer)
      invariant lines == Lines(buffer.input)
      invariant buffer.input + Concat(chunks[i..]) == Concat(chunks)
    {
      assert Concat(chunks[i..]) == chunks[i] + Concat(chunks[i + 1..]) by { assert chunks[i..][1..] == chunks[i + 1..]; }
      ghost var before := buffer.input;
      lines := Receive(buffer, chunks[i], lines);
      assert before + (chunks[i] + Concat(chunks[i + 1..])) == before + chunks[i] + Concat(chunks[i + 1..]);
      i := i + 1;
    }
    assert chunks[i..] == [] && buffer.input + [] == buffer.input;
  }

  /** One piece of the stream. */
  method Receive(buffer: LineBuffer, chunk: string, got: seq<string>) returns (lines: seq<string>)
    requires buffer.Valid() && NUL !in chunk && got == Lines(buffer.input)
    modifies buffer
    ensures buffer.Valid() && buffer.input == old(buffer.input) + chunk && lines == Lines(buffer.input)
  {
    hide Lines, Rest, Stored, IndexOf, ChopCR;
    lines := got;
    var data := chunk;
    while data != []
      invariant buffer.Valid() && NUL !in data && lines == Lines(buffer.input)
      invariant buffer.input + data == old(buffer.input) + chunk
      decreases |data|
    {
      ghost var before := buffer.input;
      LinesConsumed(before, data);
      ConsumedSome(data);
      var r := buffer.LineBuffer(data, true);
      assert before + data[..r.n] + data[r.n..] == before + data;
      assert buffer.input[|buffer.input| - 1] == data[r.n - 1];
      var line := buffer.BufferedLine();
      if line.Some? {
        lines := lines + [line.value];
      }
      data := data[r.n..];
    }
    assert buffer.input + [] == buffer.input;
  }

  lemma ConsumedSome(data: string)
    requires data != []
    ensures Consumed(data) > 0
  {
  }

  lemma LinesNone()
    ensures Lines([]) == []
  {
  }
}
