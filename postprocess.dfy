/**
 * qpte_post_process_chunks: each processed chunk is a tuple of sample arrays
 * (one per decoded term); the chunks are transposed with zip(*x) and every
 * resulting column is concatenated, and the four concatenations are unpacked
 * into y00, y01, y10, y11.
 *
 * A chunk is modelled as a sequence of components, so that the two ways the
 * unpacking can fail are visible: zip yields as many columns as the shortest
 * chunk has components (none at all when there are no chunks), and unpacking
 * into four names fails unless there are exactly four.
 */
module ChunkPostProcess {
  import opened Wrappers

  /** The unpacking errors: fewer than four columns (with the number seen), or more. */
  datatype UnpackError = NotEnoughValues(got: nat) | TooManyValues

  /** The four output streams, in the order of the tuple positions 0 .. 3. */
  datatype Terms<T> = Terms(y00: seq<T>, y01: seq<T>, y10: seq<T>, y11: seq<T>)

  /** Output stream i of t. */
  function Term<T>(t: Terms<T>, i: nat): seq<T>
    requires i < 4
  {
    match i
    case 0 => t.y00
    case 1 => t.y01
    case 2 => t.y10
    case 3 => t.y11
  }

  /** The number of components of the shortest chunk. */
  function MinArity<T>(x: seq<seq<seq<T>>>): (m: nat)
    requires |x| > 0
    ensures forall c :: 0 <= c < |x| ==> m <= |x[c]|
    ensures exists c :: 0 <= c < |x| && m == |x[c]|
  {
    if |x| == 1 then |x[0]|
    else
      var rest := MinArity(x[1..]);
      if |x[0]| <= rest then |x[0]| else rest
  }

  /** Column i of the transposition: component i of every chunk, in chunk order. */
  function Column<T>(x: seq<seq<seq<T>>>, i: nat): (col: seq<seq<T>>)
    requires forall c :: 0 <= c < |x| ==> i < |x[c]|
    ensures |col| == |x|
  {
    seq(|x|, c requires 0 <= c < |x| => x[c][i])
  }

  /** zip(*x): one column per component index below the shortest chunk's length. */
  function Zip<T>(x: seq<seq<seq<T>>>): (cols: seq<seq<seq<T>>>)
  {
    if x == [] then []
    else seq(MinArity(x), i requires 0 <= i < MinArity(x) => Column(x, i))
  }

  /** np.concatenate of a non-empty tuple of one-dimensional arrays. */
  function Concat<T>(parts: seq<seq<T>>): seq<T>
  {
    if parts == [] then [] else parts[0] + Concat(parts[1..])
  }

  /** The total number of samples in parts. */
  function TotalLength<T>(parts: seq<seq<T>>): nat
  {
    if parts == [] then 0 else |parts[0]| + TotalLength(parts[1..])
  }

  /** qpte_post_process_chunks(x). */
  function PostProcess<T>(x: seq<seq<seq<T>>>): (r: Result<Terms<T>, UnpackError>)
    ensures r.Success? <==> x != [] && MinArity(x) == 4
    ensures x == [] ==> r == Failure(NotEnoughValues(0))
    ensures x != [] && MinArity(x) < 4 ==> r == Failure(NotEnoughValues(MinArity(x)))
    ensures x != [] && MinArity(x) > 4 ==> r == Failure(TooManyValues)
    ensures r.Success? ==> forall i :: 0 <= i < 4 ==> Term(r.value, i) == Concat(Column(x, i))
  {
    var cols := Zip(x);
    if |cols| < 4 then Failure(NotEnoughValues(|cols|))
    else if |cols| > 4 then Failure(TooManyValues)
    else Success(Terms(Concat(cols[0]), Concat(cols[1]), Concat(cols[2]), Concat(cols[3])))
  }

  // Laws of concatenation.

  lemma {:induction false} ConcatAppend<T>(a: seq<seq<T>>, b: seq<seq<T>>)
    ensures Concat(a + b) == Concat(a) + Concat(b)
  {
    if a == [] {
      assert a + b == b;
    } else {
      assert (a + b)[1..] == a[1..] + b;
      ConcatAppend(a[1..], b);
    }
  }

  lemma {:induction false} ConcatLength<T>(parts: seq<seq<T>>)
    ensures |Concat(parts)| == TotalLength(parts)
  {
    if parts != [] {
      ConcatLength(parts[1..]);
    }
  }

  /** Sample k of part c sits after all the samples of the parts before it. */
  lemma {:induction false} ConcatAt<T>(parts: seq<seq<T>>, c: nat, k: nat)
    requires c < |parts| && k < |parts[c]|
    ensures TotalLength(parts[..c]) + k < |Concat(parts)|
    ensures Concat(parts)[TotalLength(parts[..c]) + k] == parts[c][k]
  {
    ConcatLength(parts);
    if c == 0 {
      assert parts[..0] == [];
    } else {
      ConcatAt(parts[1..], c - 1, k);
      assert parts[1..][..c - 1] == parts[..c][1..];
      ConcatLength(parts[1..]);
    }
  }

  lemma {:induction false} MinArityAppend<T>(x: seq<seq<seq<T>>>, x': seq<seq<seq<T>>>)
    requires |x| > 0 && |x'| > 0
    ensures MinArity(x + x') == if MinArity(x) <= MinArity(x') then MinArity(x) else MinArity(x')
  {
    if |x| == 1 {
      assert (x + x')[1..] == x';
    } else {
      assert (x + x')[1..] == x[1..] + x';
      MinArityAppend(x[1..], x');
    }
  }

  // Properties of PostProcess.

  /** Output stream i has as many samples as component i of all the chunks together. */
  lemma TermLength<T>(x: seq<seq<seq<T>>>, i: nat)
    requires PostProcess(x).Success? && i < 4
    ensures |Term(PostProcess(x).value, i)| == TotalLength(Column(x, i))
  {
    ConcatLength(Column(x, i));
  }

  /**
   * Output stream i has as many samples as component i of all the chunks
   * together, and sample k of component i of chunk c sits after the samples
   * of component i of the chunks before c.
   */
  lemma TermLayout<T>(x: seq<seq<seq<T>>>, i: nat, c: nat, k: nat)
    requires PostProcess(x).Success? && i < 4
    requires c < |x| && k < |x[c][i]|
    ensures |Term(PostProcess(x).value, i)| == TotalLength(Column(x, i))
    ensures TotalLength(Column(x, i)[..c]) + k < |Term(PostProcess(x).value, i)|
    ensures Term(PostProcess(x).value, i)[TotalLength(Column(x, i)[..c]) + k] == x[c][i][k]
  {
    TermLength(x, i);
    ConcatAt(Column(x, i), c, k);
  }

  /** Post-processing a single chunk of four components gives back those four components. */
  lemma PostProcessSingle<T>(chunk: seq<seq<T>>)
    requires |chunk| == 4
    ensures PostProcess([chunk]) == Success(Terms(chunk[0], chunk[1], chunk[2], chunk[3]))
  {
    var x := [chunk];
    forall i | 0 <= i < 4 ensures Concat(Column(x, i)) == chunk[i] {
      assert Column(x, i) == [chunk[i]];
      assert chunk[i] + [] == chunk[i];
    }
  }

  lemma ColumnAppend<T>(x: seq<seq<seq<T>>>, x': seq<seq<seq<T>>>, i: nat)
    requires forall c :: 0 <= c < |x| ==> i < |x[c]|
    requires forall c :: 0 <= c < |x'| ==> i < |x'[c]|
    ensures Column(x + x', i) == Column(x, i) + Column(x', i)
  {
  }

  /** Stream i of a concatenated batch, given that both halves have exactly four components per chunk. */
  lemma TermAppend<T>(x: seq<seq<seq<T>>>, x': seq<seq<seq<T>>>, i: nat)
    requires PostProcess(x).Success? && PostProcess(x').Success? && PostProcess(x + x').Success? && i < 4
    ensures Term(PostProcess(x + x').value, i) == Term(PostProcess(x).value, i) + Term(PostProcess(x').value, i)
  {
    ColumnAppend(x, x', i);
    ConcatAppend(Column(x, i), Column(x', i));
  }

  /**
   * Post-processing the concatenation of two batches of chunks gives, stream
   * by stream, the concatenation of their post-processed outputs.
   */
  lemma PostProcessAppend<T>(x: seq<seq<seq<T>>>, x': seq<seq<seq<T>>>)
    requires PostProcess(x).Success? && PostProcess(x').Success?
    ensures PostProcess(x + x').Success?
    ensures forall i :: 0 <= i < 4 ==>
      Term(PostProcess(x + x').value, i) == Term(PostProcess(x).value, i) + Term(PostProcess(x').value, i)
  {
    MinArityAppend(x, x');
    forall i | 0 <= i < 4
      ensures Term(PostProcess(x + x').value, i) == Term(PostProcess(x).value, i) + Term(PostProcess(x').value, i)
    {
      TermAppend(x, x', i);
    }
  }
}
