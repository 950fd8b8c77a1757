/** The backend's response body and the observable contract of
    `bufio.Reader.ReadBytes('\n')` over it (server/api.go:82-86, main.go:50-54).
    How bufio reassembles the transport's chunks is not modelled: a body is the
    bytes that arrive, followed either by a clean end of stream or by a read
    failure. */
module Transport {

  /** The bytes the backend delivers; `fails` says whether the connection then
      breaks (a read error other than `io.EOF`) instead of closing cleanly. */
  datatype Body = Body(data: string, fails: bool)

  /** One `ReadBytes('\n')` call: a line with its terminating `'\n'` and no
      error; the unterminated rest together with `io.EOF`; or the unterminated
      rest together with a read error. */
  datatype ReadResult = Line(bytes: string) | Eof(partial: string) | Failed(partial: string)

  /** A complete line as `ReadBytes` returns it: ends with its only `'\n'`. */
  predicate IsLine(b: string) {
    |b| > 0 && b[|b| - 1] == '\n' && '\n' !in b[..|b| - 1]
  }

  /** The first position of `'\n'` in `s`, or `|s|` when there is none. */
  function NewlineIndex(s: string): (k: nat)
    ensures k <= |s|
    ensures k < |s| ==> s[k] == '\n'
    ensures '\n' !in s[..k]
  {
    if s == [] then 0
    else if s[0] == '\n' then 0
    else
      var k := 1 + NewlineIndex(s[1..]);
      assert s[..k] == [s[0]] + s[1..][..k - 1];
      k
  }

  /** The first `'\n'` is the one that has none before it. */
  lemma {:induction false} NewlineIndexUnique(s: string, i: nat)
    requires i <= |s| && '\n' !in s[..i]
    requires i < |s| ==> s[i] == '\n'
    ensures NewlineIndex(s) == i
  {
    if i > 0 {
      assert s[..i] == [s[0]] + s[1..][..i - 1];
      NewlineIndexUnique(s[1..], i - 1);
    }
  }

  /** What one `ReadBytes('\n')` returns, and the bytes still unread after it:
      everything up to and including the first `'\n'`; or, when no `'\n'` is
      left, all of the rest with the end-of-stream or failure signal. */
  function NextRead(rest: string, fails: bool): (p: (ReadResult, string))
    ensures p.0.Line? ==> IsLine(p.0.bytes) && rest == p.0.bytes + p.1
    ensures !p.0.Line? ==> '\n' !in rest && p.0.partial == rest && p.1 == []
    ensures !p.0.Line? ==> (p.0.Failed? <==> fails)
  {
    var k := NewlineIndex(rest);
    if k < |rest| then
      assert rest == rest[..k + 1] + rest[k + 1..];
      assert rest[..k + 1][..k] == rest[..k];
      (Line(rest[..k + 1]), rest[k + 1..])
    else if fails then
      assert rest[..k] == rest;
      (Failed(rest), [])
    else
      assert rest[..k] == rest;
      (Eof(rest), [])
  }

  /** The results of calling `ReadBytes('\n')` until it first reports an end
      or a failure: complete lines, then one final result. */
  function Reads(rest: string, fails: bool): (rs: seq<ReadResult>)
    ensures |rs| > 0 && !rs[|rs| - 1].Line?
    decreases |rest|
  {
    var (r, after) := NextRead(rest, fails);
    if r.Line? then [r] + Reads(after, fails) else [r]
  }

  /** The shape of every sequence of reads: complete lines, each ending with
      its only `'\n'`, then one unterminated segment with end of stream, or
      with the failure exactly when the connection fails. */
  lemma {:induction false} ReadsShape(rest: string, fails: bool)
    ensures var rs := Reads(rest, fails);
      && (forall i :: 0 <= i < |rs| - 1 ==> rs[i].Line? && IsLine(rs[i].bytes))
      && '\n' !in rs[|rs| - 1].partial
      && (rs[|rs| - 1].Failed? <==> fails)
    decreases |rest|
  {
    var p := NextRead(rest, fails);
    var r := p.0;
    if r.Line? {
      ReadsShape(p.1, fails);
      var tail := Reads(p.1, fails);
      var rs := Reads(rest, fails);
      assert rs == [r] + tail;
      assert rs[|rs| - 1] == tail[|tail| - 1];
      forall i | 0 <= i < |rs| - 1
        ensures rs[i].Line? && IsLine(rs[i].bytes)
      {
        if i > 0 {
          assert rs[i] == tail[i - 1];
        }
      }
    }
  }

  /** The bytes carried by a sequence of read results, in order. */
  function Joined(rs: seq<ReadResult>): string {
    if rs == [] then []
    else (if rs[0].Line? then rs[0].bytes else rs[0].partial) + Joined(rs[1..])
  }

  /** Reading loses and invents nothing: the reads put back together are the body. */
  lemma {:induction false} ReadsReassemble(rest: string, fails: bool)
    ensures Joined(Reads(rest, fails)) == rest
    decreases |rest|
  {
    var (r, after) := NextRead(rest, fails);
    if r.Line? {
      ReadsReassemble(after, fails);
      assert ([r] + Reads(after, fails))[1..] == Reads(after, fails);
    }
  }

  /** The body made of the given lines, each followed by `'\n'`. */
  function Unlines(ls: seq<string>): string {
    if ls == [] then [] else ls[0] + "\n" + Unlines(ls[1..])
  }

  /** The read results for the given lines, each terminated by `'\n'`. */
  function LineReads(ls: seq<string>): (rs: seq<ReadResult>)
    ensures |rs| == |ls|
    ensures forall i :: 0 <= i < |ls| ==> rs[i] == Line(ls[i] + "\n")
  {
    if ls == [] then [] else [Line(ls[0] + "\n")] + LineReads(ls[1..])
  }

  /** The final result `ReadBytes` gives for an unterminated segment. */
  function Final(partial: string, fails: bool): ReadResult {
    if fails then Failed(partial) else Eof(partial)
  }

  /** Splitting inverts joining: lines without `'\n'`, each terminated, then
      an unterminated segment, are read back as exactly those lines and that
      segment. */
  lemma {:induction false} ReadsUnlines(ls: seq<string>, tail: string, fails: bool)
    requires forall i :: 0 <= i < |ls| ==> '\n' !in ls[i]
    requires '\n' !in tail
    ensures Reads(Unlines(ls) + tail, fails) == LineReads(ls) + [Final(tail, fails)]
    decreases |ls|
  {
    var body := Unlines(ls) + tail;
    if ls == [] {
      assert body == tail;
    } else {
      var l := ls[0];
      var after := Unlines(ls[1..]) + tail;
      assert body == l + "\n" + after;
      assert body[..|l|] == l;
      NewlineIndexUnique(body, |l|);
      assert body[..|l| + 1] == l + "\n";
      assert body[|l| + 1..] == after;
      ReadsUnlines(ls[1..], tail, fails);
    }
  }

  /** The stateful `bufio.Reader` over a response body. */
  class Reader {
    /** The bytes not yet returned by `ReadBytes`. */
    var rest: string
    const fails: bool
    /** Every result `ReadBytes` has returned so far, oldest first. */
    ghost var history: seq<ReadResult>

    constructor (body: Body)
      ensures rest == body.data && fails == body.fails && history == []
    {
      rest := body.data;
      fails := body.fails;
      history := [];
    }

    /** `ReadBytes('\n')`: scans for the delimiter and returns everything up
        to it, or the unterminated rest with end of stream or the failure. */
    method ReadBytes() returns (r: ReadResult)
      modifies this
      ensures (r, rest) == NextRead(old(rest), fails)
      ensures history == old(history) + [r]
    {
      var i := 0;
      while i < |rest| && rest[i] != '\n'
        invariant 0 <= i <= |rest|
        invariant '\n' !in rest[..i]
      {
        assert rest[..i + 1] == rest[..i] + [rest[i]];
        i := i + 1;
      }
      NewlineIndexUnique(rest, i);
      if i < |rest| {
        r := Line(rest[..i + 1]);
        rest := rest[i + 1..];
      } else if fails {
        r := Failed(rest);
        rest := [];
      } else {
        r := Eof(rest);
        rest := [];
      }
      history := history + [r];
    }
  }
}
