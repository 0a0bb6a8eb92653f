/** Outcomes of the packer's operations. The C code returns a negative errno;
    the model names the kind of failure instead of its code. */
module Results {
  import opened Bytes

  datatype Error =
    | InvalidBlockAddress(vaddr: u32, size: u32)  // no memory zone holds the section
    | ReadFailed                                   // short read from a module's ELF file
    | WriteFailed                                  // short write to an output file

  datatype Result<T> = Ok(value: T) | Err(error: Error)

  datatype Option<T> = None | Some(value: T)

  /** Two pieces of output one after the other; the first missing piece
      decides the error. */
  function Concat(a: Result<seq<byte>>, b: Result<seq<byte>>): (r: Result<seq<byte>>)
    ensures r.Ok? <==> a.Ok? && b.Ok?
    ensures r.Ok? ==> r.value == a.value + b.value
    ensures a.Err? ==> r == a
  {
    match a
    case Err(e) => Err(e)
    case Ok(x) =>
      match b
      case Err(e) => Err(e)
      case Ok(y) => Ok(x + y)
  }
}

/** The two output files (firmware image and log dictionary) as seekable byte
    streams: the contents, the cursor, and a capacity past which a write fails. */
module Stream {
  import opened Bytes
  import opened Results

  datatype StreamState = StreamState(data: seq<byte>, pos: nat, capacity: nat)

  /** The state a packing step leaves an output stream in, with what the step
      returned. */
  datatype Step<T> = Step(st: StreamState, res: Result<T>)

  ghost predicate Valid(s: StreamState) {
    s.pos <= |s.data| <= s.capacity
  }

  /** The contents after writing `bytes` at `pos`; a write past the end
      extends the file. */
  function Overwrite(data: seq<byte>, pos: nat, bytes: seq<byte>): (r: seq<byte>)
    requires pos <= |data|
    ensures |r| == if pos + |bytes| <= |data| then |data| else pos + |bytes|
  {
    if pos + |bytes| <= |data| then data[..pos] + bytes + data[pos + |bytes|..]
    else data[..pos] + bytes
  }

  /** What was before `pos` and what lies beyond the written range stay, and
      the range holds `bytes`. */
  lemma OverwriteKeepsTheRest(data: seq<byte>, pos: nat, bytes: seq<byte>)
    requires pos <= |data|
    ensures var r := Overwrite(data, pos, bytes);
            && r[..pos] == data[..pos] && r[pos..pos + |bytes|] == bytes
            && forall i :: pos + |bytes| <= i < |data| ==> r[i] == data[i]
  {
  }

  /** Whether a write of `n` bytes at the cursor succeeds. */
  predicate Fits(s: StreamState, n: nat) {
    s.pos + n <= s.capacity
  }

  /** fwrite at the cursor: on success the bytes are in place and the cursor is
      past them; a failed write leaves the stream as it was. */
  function Put(s: StreamState, bytes: seq<byte>): (r: StreamState)
    requires Valid(s)
    ensures Valid(r) && r.capacity == s.capacity
    ensures Fits(s, |bytes|) ==> r.pos == s.pos + |bytes| && r.data == Overwrite(s.data, s.pos, bytes)
    ensures !Fits(s, |bytes|) ==> r == s
  {
    if Fits(s, |bytes|) then StreamState(Overwrite(s.data, s.pos, bytes), s.pos + |bytes|, s.capacity)
    else s
  }

  /** At the end of the stream a successful write appends. */
  lemma PutAppends(s: StreamState, bytes: seq<byte>)
    requires Valid(s) && s.pos == |s.data|
    ensures Fits(s, |bytes|) <==> |s.data| + |bytes| <= s.capacity
    ensures Fits(s, |bytes|) ==> Put(s, bytes) == StreamState(s.data + bytes, |s.data| + |bytes|, s.capacity)
  {
  }

  /** Rewriting a region with bytes of the same length replaces exactly that
      region: the header rewrite of the two-pass protocol. */
  lemma OverwriteRegion(a: seq<byte>, x: seq<byte>, b: seq<byte>, y: seq<byte>)
    requires |x| == |y|
    ensures Overwrite(a + x + b, |a|, y) == a + y + b
  {
    var d := a + x + b;
    assert d[..|a|] == a;
    assert d[|a| + |y|..] == b;
  }

  /** `r` is what a packing step does to the stream `st` when `b` is what it
      has to write: it succeeds precisely when `b` can be produced and fits,
      it then leaves `b` appended and the cursor after it, and an error other
      than a failed write is the one that prevented producing `b`. */
  ghost predicate AppendsAs<T>(st: StreamState, r: Step<T>, b: Result<seq<byte>>) {
    && (r.res.Ok? <==> b.Ok? && |st.data| + |b.value| <= st.capacity)
    && (r.res.Ok? ==> r.st == StreamState(st.data + b.value, |st.data| + |b.value|, st.capacity))
    && (r.res.Err? && r.res.error != WriteFailed ==> b == Err(r.res.error))
    && (b.Err? ==> r.res.Err?)
  }

  /** The step that stops at the first failure of `r1` and otherwise goes on
      with `r2`. */
  function Then<T, U>(r1: Step<T>, r2: Step<U>): Step<U> {
    if r1.res.Err? then Step(r1.st, Err(r1.res.error)) else r2
  }

  /** Running two appending steps one after the other appends the two pieces
      one after the other. */
  lemma AppendsThen<T, U>(st: StreamState, r1: Step<T>, b1: Result<seq<byte>>, r2: Step<U>, b2: Result<seq<byte>>)
    requires AppendsAs(st, r1, b1)
    requires r1.res.Ok? ==> AppendsAs(r1.st, r2, b2)
    ensures AppendsAs(st, Then(r1, r2), Concat(b1, b2))
  {
    if r1.res.Ok? && b2.Ok? {
      assert st.data + b1.value + b2.value == st.data + (b1.value + b2.value);
    }
  }

  /** The first n pieces one after the other, or the error of the first of
      them that is missing. */
  function Join(pieces: seq<Result<seq<byte>>>, n: nat): Result<seq<byte>>
    requires n <= |pieces|
  {
    if n == 0 then Ok([]) else Concat(Join(pieces, n - 1), pieces[n - 1])
  }

  /** A whole that can be made holds its last piece after the others. */
  lemma JoinLast(pieces: seq<Result<seq<byte>>>, n: nat)
    requires 0 < n <= |pieces| && Join(pieces, n).Ok?
    ensures Join(pieces, n - 1).Ok? && pieces[n - 1].Ok?
    ensures |Join(pieces, n).value| == |Join(pieces, n - 1).value| + |pieces[n - 1].value|
  {
  }

  /** Once a piece is missing, the whole is missing for the same reason. */
  lemma {:induction false} JoinKeepsError(pieces: seq<Result<seq<byte>>>, k: nat, n: nat)
    requires k <= n <= |pieces| && Join(pieces, k).Err?
    ensures Join(pieces, n) == Join(pieces, k)
  {
    if k < n {
      JoinKeepsError(pieces, k, n - 1);
    }
  }

  /** Joining more pieces extends the result. */
  lemma {:induction false} JoinGrows(pieces: seq<Result<seq<byte>>>, k: nat, n: nat)
    requires k <= n <= |pieces| && Join(pieces, n).Ok?
    ensures Join(pieces, k).Ok? && |Join(pieces, k).value| <= |Join(pieces, n).value|
  {
    if k < n {
      JoinGrows(pieces, k, n - 1);
    }
  }

  /** A step that appends piece i after the first i pieces leaves the first
      i + 1 pieces. */
  lemma JoinAppends<T>(pieces: seq<Result<seq<byte>>>, i: nat, st: StreamState, r: Step<T>)
    requires i < |pieces| && Join(pieces, i).Ok? && r.res.Ok?
    requires var cur := st.data + Join(pieces, i).value;
             AppendsAs(StreamState(cur, |cur|, st.capacity), r, pieces[i])
    ensures Join(pieces, i + 1).Ok?
    ensures r.st == StreamState(st.data + Join(pieces, i + 1).value, |r.st.data|, st.capacity)
  {
    assert st.data + Join(pieces, i).value + pieces[i].value == st.data + (Join(pieces, i).value + pieces[i].value);
  }

  /** When the first i pieces follow `st` and the step writing piece i fails,
      writing all of the pieces from `st` fails in the same way. */
  lemma JoinFails<T, U>(pieces: seq<Result<seq<byte>>>, i: nat, st: StreamState, r: Step<T>)
    requires i < |pieces| && Join(pieces, i).Ok? && r.res.Err?
    requires var cur := st.data + Join(pieces, i).value;
             AppendsAs(StreamState(cur, |cur|, st.capacity), r, pieces[i])
    ensures AppendsAs(st, Step(r.st, Result<U>.Err(r.res.error)), Join(pieces, |pieces|))
  {
    if pieces[i].Err? {
      JoinKeepsError(pieces, i + 1, |pieces|);
    } else if Join(pieces, |pieces|).Ok? {
      JoinGrows(pieces, i + 1, |pieces|);
    }
  }

  /** A write whose result is checked: a short write is an error. */
  function PutStep<T>(st: StreamState, bytes: seq<byte>, v: T): Step<T>
    requires Valid(st)
  {
    if Fits(st, |bytes|) then Step(Put(st, bytes), Ok(v)) else Step(st, Err(WriteFailed))
  }

  lemma PutStepAppends<T>(st: StreamState, bytes: seq<byte>, v: T)
    requires Valid(st) && st.pos == |st.data|
    ensures AppendsAs(st, PutStep(st, bytes, v), Ok(bytes))
    ensures Fits(st, |bytes|) ==> PutStep(st, bytes, v).st == Put(st, bytes)
  {
    PutAppends(st, bytes);
  }

  /** A step that writes nothing and succeeds. */
  lemma NothingAppends<T>(st: StreamState, v: T)
    requires Valid(st) && st.pos == |st.data|
    ensures AppendsAs(st, Step(st, Ok(v)), Ok([]))
  {
    assert st.data + [] == st.data;
  }

  /** Seeking back over a header just written and writing one of the same
      length replaces exactly that header. */
  lemma PutRewrites(d: seq<byte>, h: seq<byte>, rest: seq<byte>, h2: seq<byte>, capacity: nat)
    requires |h| == |h2| && |d| + |h| + |rest| <= capacity
    ensures Put(StreamState(d + h + rest, |d|, capacity), h2) == StreamState(d + h2 + rest, |d| + |h2|, capacity)
  {
    OverwriteRegion(d, h, rest, h2);
  }

  /** Seeking back to an earlier header, writing a header of the same size
      over it and seeking back to where the stream was: only the header's
      bytes change. */
  lemma RewriteInPlace(d: seq<byte>, h: seq<byte>, rest: seq<byte>, h2: seq<byte>, st1: StreamState)
    requires |h| == |h2| && st1 == StreamState(d + h + rest, |d| + |h| + |rest|, st1.capacity)
    requires |st1.data| <= st1.capacity
    ensures Put(st1.(pos := |d|), h2).(pos := st1.pos) == StreamState(d + h2 + rest, |d| + |h2| + |rest|, st1.capacity)
  {
    PutRewrites(d, h, rest, h2, st1.capacity);
  }

  /** A file that holds `d0 + a` whenever that fits, after a step that
      appends `b` whenever that fits, holds `d0 + (a + b)` whenever that fits;
      when the step does not fit, neither does `d0 + (a + b)`. */
  lemma AppendsSoFar(d0: seq<byte>, a: seq<byte>, b: seq<byte>, prev: seq<byte>, data: seq<byte>, capacity: nat)
    requires |d0| + |a| <= capacity ==> prev == d0 + a
    requires |prev| + |b| <= capacity ==> data == prev + b
    ensures |d0| + |a + b| <= capacity ==> data == d0 + (a + b)
    ensures |prev| + |b| > capacity ==> |d0| + |a + b| > capacity
  {
    if |d0| + |a + b| <= capacity {
      assert d0 + a + b == d0 + (a + b);
    }
  }

  class OutStream {
    var data: seq<byte>
    var pos: nat
    const capacity: nat

    ghost predicate Valid()
      reads this
    {
      pos <= |data| <= capacity
    }

    function State(): StreamState
      reads this
    {
      StreamState(data, pos, capacity)
    }

    /** An empty file opened for writing. */
    constructor (capacity: nat)
      ensures Valid() && data == [] && pos == 0 && this.capacity == capacity
    {
      data, pos := [], 0;
      this.capacity := capacity;
    }

    /** fwrite: `ok` is false when the write came up short. */
    method Write(bytes: seq<byte>) returns (ok: bool)
      requires Valid()
      modifies this
      ensures Valid()
      ensures ok == Fits(old(State()), |bytes|)
      ensures State() == Put(old(State()), bytes)
    {
      ok := pos + |bytes| <= capacity;
      if ok {
        data := Overwrite(data, pos, bytes);
        pos := pos + |bytes|;
      }
    }

    /** ftell */
    method Tell() returns (p: nat)
      ensures p == pos
    {
      p := pos;
    }

    /** fseek(SEEK_SET) to a position inside the written data. */
    method Seek(p: nat)
      requires Valid() && p <= |data|
      modifies this
      ensures Valid() && data == old(data) && pos == p
    {
      pos := p;
    }
  }
}
