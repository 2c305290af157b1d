/** Comparing two files through readers that may hand out their content in any pieces. */
module RegularFiles {
  import opened Options
  import opened FileTree

  const BUFFER_SIZE: nat := 32 * 1024

  datatype Status = More | EOF | Fail

  /** One `Read`: how many bytes arrived and what came with them. */
  datatype ReadStep = Chunk(n: nat, status: Status)

  /** `script` is a behaviour of a reader over `data` standing at `pos`, up to its end or its failure. */
  ghost predicate Reads(data: Bytes, script: seq<ReadStep>, pos: nat) {
    && script != []
    && script[0].n <= BUFFER_SIZE
    && pos + script[0].n <= |data|
    && (script[0].status.EOF? ==> pos + script[0].n == |data|)
    && (script[0].status.More? ==> Reads(data, script[1..], pos + script[0].n))
  }

  /** Both readers reach their end together, having cut their content at the same places. */
  ghost predicate SameChunks(ls: seq<ReadStep>, rs: seq<ReadStep>) {
    && ls != [] && rs != []
    && ls[0].n == rs[0].n
    && (|| (ls[0].status.EOF? && rs[0].status.EOF?)
        || (ls[0].status.More? && rs[0].status.More? && SameChunks(ls[1..], rs[1..])))
  }

  /** A read fails before the readers have shown a difference or both reached their end. */
  ghost predicate Breaks(left: Bytes, right: Bytes, ls: seq<ReadStep>, rs: seq<ReadStep>, pos: nat)
    requires Reads(left, ls, pos) && Reads(right, rs, pos)
  {
    && ls[0].n == rs[0].n && left[pos..pos + ls[0].n] == right[pos..pos + ls[0].n]
    && (|| ls[0].status.Fail? || rs[0].status.Fail?
        || (ls[0].status.More? && rs[0].status.More? && Breaks(left, right, ls[1..], rs[1..], pos + ls[0].n)))
  }

  /** `None` is a read error. */
  method RegularFilesEqual(left: Bytes, right: Bytes, ls: seq<ReadStep>, rs: seq<ReadStep>)
    returns (r: Option<bool>)
    requires Reads(left, ls, 0) && Reads(right, rs, 0)
    ensures r == Some(true) <==> left == right && SameChunks(ls, rs)
    ensures r.None? <==> Breaks(left, right, ls, rs, 0)
  {
    var i, pos := 0, 0;
    while true
      invariant 0 <= i < |ls| && i < |rs| && 0 <= pos
      invariant Reads(left, ls[i..], pos) && Reads(right, rs[i..], pos)
      invariant left[..pos] == right[..pos]
      invariant SameChunks(ls, rs) <==> SameChunks(ls[i..], rs[i..])
      invariant Breaks(left, right, ls, rs, 0) <==> Breaks(left, right, ls[i..], rs[i..], pos)
      decreases |ls| - i
    {
      var l, r' := ls[i], rs[i];
      if l.n != r'.n || left[pos..pos + l.n] != right[pos..pos + r'.n] {
        assert left == right ==> l.n != r'.n;
        return Some(false);
      }
      assert left[..pos + l.n] == left[..pos] + left[pos..pos + l.n];
      assert right[..pos + l.n] == right[..pos] + right[pos..pos + l.n];
      if l.status.EOF? && r'.status.EOF? {
        assert left == left[..pos + l.n] && right == right[..pos + l.n];
        return Some(true);
      }
      if l.status.Fail? {
        return None;
      }
      if r'.status.Fail? {
        return None;
      }
      if l.status.EOF? || r'.status.EOF? {
        return Some(false);
      }
      assert ls[i..][1..] == ls[i + 1..] && rs[i..][1..] == rs[i + 1..];
      i, pos := i + 1, pos + l.n;
    }
  }

  /** `os.File.Read` on a regular file fills the buffer and reports the end on its own. */
  function FullReads(n: nat): (s: seq<ReadStep>)
    ensures forall i :: 0 <= i < |s| ==> !s[i].status.Fail?
  {
    if n == 0 then [Chunk(0, EOF)]
    else
      var k := if n < BUFFER_SIZE then n else BUFFER_SIZE;
      [Chunk(k, More)] + FullReads(n - k)
  }

  lemma {:induction false} FullReadsAreReads(data: Bytes, pos: nat)
    requires pos <= |data|
    ensures Reads(data, FullReads(|data| - pos), pos)
    ensures SameChunks(FullReads(|data| - pos), FullReads(|data| - pos))
    decreases |data| - pos
  {
    var n := |data| - pos;
    if n > 0 {
      var k := if n < BUFFER_SIZE then n else BUFFER_SIZE;
      FullReadsAreReads(data, pos + k);
      assert FullReads(n)[1..] == FullReads(n - k);
    }
  }

  /** Two readers of the same bytes that cut them differently make equal files look different, so the
      answer `false` alone proves nothing. */
  lemma ChunkingCanHideEquality()
    ensures exists data: Bytes, ls, rs ::
      Reads(data, ls, 0) && Reads(data, rs, 0) && !SameChunks(ls, rs)
  {
    var data: Bytes := [1, 2];
    var ls := [Chunk(2, EOF)];
    var rs := [Chunk(1, More), Chunk(1, EOF)];
    assert rs[1..] == [Chunk(1, EOF)];
    assert Reads(data, rs[1..], 1);
    assert Reads(data, ls, 0) && Reads(data, rs, 0) && !SameChunks(ls, rs);
  }
}
