/**
 The sparse challenge polynomial of ML-DSA. The sampler reads an index and a sign at a cursor that
 walks 65 fixed positions of a 196-byte stream over and over, and places 49 signs at distinct indices.
 */
module MlDsaChallenge {
  import opened Words
  import opened Negacyclic
  import opened Weights
  import opened MlDsaPoly

  const TERMS: nat := 49
  const POSITIONS: nat := 65

  type Stream = s: seq<u8> | |s| == 196 witness seq(196, _ => 0)

  function IndexAt(stream: Stream, cursor: nat): (i: nat)
    requires cursor + 2 < |stream|
    ensures i < N
  {
    Or(stream[cursor], Shl(stream[cursor + 1], 8)) % N
  }

  function SignAt(stream: Stream, cursor: nat): (s: i24)
    requires cursor + 2 < |stream|
    ensures s == 1 || s == -1
  {
    if And(stream[cursor + 2], 1) == 0 then 1 else -1
  }

  /** The loop's variables. */
  datatype Sampler = Sampler(cursor: nat, placed: nat, coeffs: Poly24)

  function Start(): Sampler {
    Sampler(0, 0, ZeroPoly())
  }

  /** One turn of the loop. */
  function Step(stream: Stream, st: Sampler): Sampler
    requires st.cursor + 2 < |stream|
  {
    hide IndexAt, SignAt;
    var idx, sign := IndexAt(stream, st.cursor), SignAt(stream, st.cursor);
    var cursor := if st.cursor + 3 + 3 >= |stream| then 0 else st.cursor + 3;
    if st.coeffs[idx] == 0 then Sampler(cursor, st.placed + 1, st.coeffs[idx := sign])
    else Sampler(cursor, st.placed, st.coeffs)
  }

  /** The state after n turns, whether or not the loop would still be running. */
  function Run(stream: Stream, n: nat): (st: Sampler)
    ensures st.cursor == 3 * (n % POSITIONS)
  {
    hide Step;
    if n == 0 then Start()
    else
      NextCursor(stream, Run(stream, n - 1), n - 1);
      Step(stream, Run(stream, n - 1))
  }

  lemma NextCursor(stream: Stream, st: Sampler, n: nat)
    requires st.cursor == 3 * (n % POSITIONS)
    ensures Step(stream, st).cursor == 3 * ((n + 1) % POSITIONS)
  {
    hide IndexAt, SignAt;
    if n % POSITIONS < POSITIONS - 1 {
      assert (n + 1) % POSITIONS == n % POSITIONS + 1;
    }
  }

  lemma OneTurn(stream: Stream, n: nat)
    ensures Run(stream, n + 1) == Step(stream, Run(stream, n))
  {
    hide Step;
  }

  /** The indices found at the first n positions. */
  function Indices(stream: Stream, n: nat): set<nat>
    requires n <= POSITIONS
  {
    set i: nat | i < n :: IndexAt(stream, 3 * i)
  }

  /** The stream offers 49 different indices. */
  predicate Enough(stream: Stream) {
    |Indices(stream, POSITIONS)| >= TERMS
  }

  ghost predicate Placed(st: Sampler, indices: set<nat>) {
    && (forall k: nat :: k < N ==> (st.coeffs[k] != 0 <==> k in indices))
    && st.placed == |indices|
    && (forall k: nat :: k < N ==> -1 <= st.coeffs[k] <= 1)
    && Weight(st.coeffs) == st.placed
  }

  /** One turn at position i places the index found there unless it is already placed. */
  lemma StepPlaces(stream: Stream, st: Sampler, indices: set<nat>)
    requires st.cursor + 2 < |stream| && Placed(st, indices)
    ensures Placed(Step(stream, st), indices + {IndexAt(stream, st.cursor)})
  {
    hide IndexAt, SignAt, Weight;
    var idx := IndexAt(stream, st.cursor);
    var st' := Step(stream, st);
    if idx in indices {
      assert indices + {idx} == indices;
    } else {
      WeightGrows(st.coeffs, st'.coeffs, idx);
    }
  }

  /** The first pass places exactly the indices of the positions read. */
  lemma {:induction false} FirstPass(stream: Stream, n: nat)
    requires n <= POSITIONS
    ensures Placed(Run(stream, n), Indices(stream, n))
  {
    hide IndexAt, SignAt, Weight, Run, Step, Indices, Placed;
    if n == 0 {
      NothingPlaced(stream);
    } else {
      FirstPass(stream, n - 1);
      OneTurn(stream, n - 1);
      StepPlaces(stream, Run(stream, n - 1), Indices(stream, n - 1));
      IndicesGrow(stream, n - 1);
    }
  }

  lemma NothingPlaced(stream: Stream)
    ensures Placed(Run(stream, 0), Indices(stream, 0))
  {
    hide Weight, IndexAt;
    WeightOfZero();
    StartIs(stream, ZeroPoly());
    assert Indices(stream, 0) == {};
  }

  lemma IndicesGrow(stream: Stream, n: nat)
    requires n < POSITIONS
    ensures Indices(stream, n + 1) == Indices(stream, n) + {IndexAt(stream, 3 * n)}
  {
    hide IndexAt;
  }

  /** Replaying the positions places nothing more. */
  lemma {:induction false} Replay(stream: Stream, n: nat)
    requires n >= POSITIONS
    ensures Run(stream, n).placed == |Indices(stream, POSITIONS)| && Run(stream, n).coeffs == Run(stream, POSITIONS).coeffs
  {
    hide IndexAt, SignAt, Weight;
    FirstPass(stream, POSITIONS);
    if n > POSITIONS {
      Replay(stream, n - 1);
      var i := (n - 1) % POSITIONS;
      assert IndexAt(stream, 3 * i) in Indices(stream, POSITIONS);
    }
  }

  /** The loop ends on its 49th placement exactly when the 65 positions hold 49 different indices, and then in one pass. */
  lemma TerminatesIff(stream: Stream)
    ensures (exists n: nat :: Run(stream, n).placed >= TERMS) <==> Enough(stream)
    ensures Enough(stream) <==> Run(stream, POSITIONS).placed >= TERMS
  {
    hide IndexAt, SignAt, Weight;
    FirstPass(stream, POSITIONS);
    forall n: nat ensures Run(stream, n).placed <= |Indices(stream, POSITIONS)| {
      if n >= POSITIONS {
        Replay(stream, n);
      } else {
        FirstPass(stream, n);
        Fewer(Indices(stream, n), Indices(stream, POSITIONS));
      }
    }
  }

  /** A stream of equal bytes: one index, so the loop never ends. */
  lemma ConstantStreamNeverEnds(b: u8, n: nat)
    ensures !Enough(seq(196, _ => b)) && Run(seq(196, _ => b), n).placed < TERMS
  {
    hide Run, Or, Shl;
    var stream: Stream := seq(196, _ => b);
    var only := IndexAt(stream, 0);
    assert Indices(stream, POSITIONS) <= {only};
    Fewer(Indices(stream, POSITIONS), {only});
    TerminatesIff(stream);
  }

  lemma {:induction false} Fewer(a: set<nat>, b: set<nat>)
    requires a <= b
    ensures |a| <= |b|
  {
    assert b == a + (b - a);
  }

  /** After n turns 49 signs are placed. */
  predicate Full(stream: Stream, n: nat) {
    Run(stream, n).placed >= TERMS
  }

  /** Turns taken before the loop stops: the first count at which 49 signs are placed. */
  function StopsAt(stream: Stream, n: nat): (stop: nat)
    requires Enough(stream) && n <= POSITIONS
    ensures n <= stop <= POSITIONS && Full(stream, stop)
    ensures forall i :: n <= i < stop ==> !Full(stream, i)
    decreases POSITIONS - n
  {
    hide Full;
    if Full(stream, n) then n
    else
      FullAtEnd(stream);
      StopsAt(stream, n + 1)
  }

  lemma FullAtEnd(stream: Stream)
    requires Enough(stream)
    ensures Full(stream, POSITIONS)
  {
    hide Run;
    TerminatesIff(stream);
  }

  function Challenge(stream: Stream): Poly24
    requires Enough(stream)
  {
    Run(stream, StopsAt(stream, 0)).coeffs
  }

  /** The challenge has exactly 49 nonzero coefficients, each 1 or -1. */
  lemma ChallengeIsSparse(stream: Stream)
    requires Enough(stream)
    ensures var c := Challenge(stream);
            && Weight(c) == TERMS
            && (forall k :: 0 <= k < N ==> -1 <= c[k] <= 1)
            && |set k: nat | k < N && c[k] != 0| == TERMS
  {
    hide IndexAt, SignAt, Weight, Run;
    var stop := StopsAt(stream, 0);
    FirstPass(stream, stop);
    StopsOnFortyNine(stream, stop);
    var c := Challenge(stream);
    assert Indices(stream, stop) == set k: nat | k < N && c[k] != 0;
  }

  lemma StopsOnFortyNine(stream: Stream, stop: nat)
    requires Enough(stream) && stop == StopsAt(stream, 0)
    ensures Run(stream, stop).placed == TERMS
  {
    hide IndexAt, SignAt;
    if stop > 0 {
      assert !Full(stream, stop - 1);
    }
  }

  /** The loop body. */
  method Turn(stream: Stream, coeffs: array<i24>, cursor: nat, placed: nat) returns (cursor': nat, placed': nat)
    requires coeffs.Length == N && cursor + 2 < |stream|
    modifies coeffs
    ensures Sampler(cursor', placed', coeffs[..]) == Step(stream, Sampler(cursor, placed, old(coeffs[..])))
  {
    hide Or, Shl, And;
    var idxWord := Or(stream[cursor], Shl(stream[cursor + 1], 8));
    var idx := idxWord % N;
    var sign: i24 := if And(stream[cursor + 2], 1) == 0 then 1 else -1;
    cursor' := cursor + 3;
    if cursor' + 3 >= |stream| {
      cursor' := 0;
    }
    placed' := placed;
    if coeffs[idx] == 0 {
      coeffs[idx] := sign;
      placed' := placed + 1;
    }
  }

  /** The loop, which ends because each turn of its one pass reads a new position. */
  method ChallengePolyFromDigest(stream: Stream) returns (poly: Poly24)
    requires Enough(stream)
    ensures poly == Challenge(stream)
  {
    hide Run, Step;
    var coeffs := new i24[N](_ => 0);
    var cursor: nat, placed: nat := 0, 0;
    ghost var turns := 0;
    StartIs(stream, coeffs[..]);
    while placed < TERMS
      invariant turns <= StopsAt(stream, 0)
      invariant Run(stream, turns) == Sampler(cursor, placed, coeffs[..])
      decreases POSITIONS - turns
    {
      StopsLater(stream, turns);
      OneTurn(stream, turns);
      cursor, placed := Turn(stream, coeffs, cursor, placed);
      turns := turns + 1;
    }
    StopIs(stream, turns);
    poly := coeffs[..];
  }

  lemma StartIs(stream: Stream, zero: Poly24)
    requires forall k :: 0 <= k < N ==> zero[k] == 0
    ensures Run(stream, 0) == Sampler(0, 0, zero)
  {
    assert zero == ZeroPoly();
  }

  lemma StopIs(stream: Stream, n: nat)
    requires Enough(stream) && n <= StopsAt(stream, 0) && Run(stream, n).placed >= TERMS
    ensures n == StopsAt(stream, 0)
  {
    hide Run;
    assert Full(stream, n);
  }

  lemma StopsLater(stream: Stream, n: nat)
    requires Enough(stream) && n <= StopsAt(stream, 0) && Run(stream, n).placed < TERMS
    ensures n < StopsAt(stream, 0) <= POSITIONS
  {
  }

  // The challenge in the bytes of its stream

  /** The index read at position p is its first byte, the sign the low bit of its third. */
  lemma PositionIs(stream: Stream, p: nat)
    requires p < POSITIONS
    ensures IndexAt(stream, 3 * p) == stream[3 * p]
    ensures SignAt(stream, 3 * p) == if stream[3 * p + 2] % 2 == 0 then 1 else -1
  {
    hide Or, Shl, And;
    SmallPowers();
    Shifts(stream[3 * p + 1]);
    Join(stream[3 * p + 1], stream[3 * p], 8);
    AndOne(stream[3 * p + 2]);
  }

  /** Position p is reached before 49 indices are found, and finds one that no earlier position has. */
  predicate Finds(stream: Stream, p: nat)
    requires p < POSITIONS
  {
    |Indices(stream, p)| < TERMS && IndexAt(stream, 3 * p) !in Indices(stream, p)
  }

  lemma {:induction false} SignStays(stream: Stream, p: nat, n: nat)
    requires p < n <= POSITIONS && IndexAt(stream, 3 * p) !in Indices(stream, p)
    ensures Run(stream, n).coeffs[IndexAt(stream, 3 * p)] == SignAt(stream, 3 * p)
  {
    hide IndexAt, SignAt, Weight, Run, Indices, Placed;
    FirstPass(stream, n - 1);
    OneTurn(stream, n - 1);
    CursorIs(stream, n - 1);
    if n > p + 1 {
      SignStays(stream, p, n - 1);
    }
    StepKeeps(stream, Run(stream, n - 1), Indices(stream, n - 1), IndexAt(stream, 3 * p));
  }

  lemma CursorIs(stream: Stream, n: nat)
    requires n < POSITIONS
    ensures Run(stream, n).cursor == 3 * n
  {
  }

  /** A turn keeps what is placed, and places its own sign where nothing was. */
  lemma StepKeeps(stream: Stream, st: Sampler, indices: set<nat>, k: nat)
    requires st.cursor + 2 < |stream| && Placed(st, indices) && k < N
    ensures k in indices ==> Step(stream, st).coeffs[k] == st.coeffs[k]
    ensures k !in indices && k == IndexAt(stream, st.cursor) ==> Step(stream, st).coeffs[k] == SignAt(stream, st.cursor)
  {
    hide IndexAt, SignAt, Weight;
  }

  /** A coefficient of the challenge is the sign found with its index, or zero when no position finds it. */
  lemma ChallengeIs(stream: Stream, k: nat)
    requires Enough(stream) && k < N
    ensures forall p: nat :: p < POSITIONS && Finds(stream, p) && stream[3 * p] == k ==>
              Challenge(stream)[k] == if stream[3 * p + 2] % 2 == 0 then 1 else -1
    ensures (forall p: nat :: p < POSITIONS && Finds(stream, p) ==> stream[3 * p] != k) ==> Challenge(stream)[k] == 0
  {
    hide IndexAt, SignAt, Weight, Run, StopsAt, Indices;
    var stop := StopsAt(stream, 0);
    FirstPass(stream, stop);
    forall p: nat | p < POSITIONS && Finds(stream, p) && stream[3 * p] == k
      ensures Challenge(stream)[k] == if stream[3 * p + 2] % 2 == 0 then 1 else -1
    {
      PositionIs(stream, p);
      ReachedIff(stream, p);
      SignStays(stream, p, stop);
    }
    if Challenge(stream)[k] != 0 {
      assert k in Indices(stream, stop);
      var p := FirstFound(stream, stop, k);
      PositionIs(stream, p);
      ReachedIff(stream, p);
    }
  }

  /** A position is read exactly when fewer than 49 indices are found before it. */
  lemma ReachedIff(stream: Stream, p: nat)
    requires Enough(stream) && p < POSITIONS
    ensures p < StopsAt(stream, 0) <==> |Indices(stream, p)| < TERMS
  {
    hide IndexAt, SignAt, Weight, Run, Indices;
    var stop := StopsAt(stream, 0);
    FirstPass(stream, p);
    assert p < stop ==> !Full(stream, p);
    if p >= stop {
      FirstPass(stream, stop);
      MoreIndices(stream, stop, p);
      Fewer(Indices(stream, stop), Indices(stream, p));
    }
  }

  lemma MoreIndices(stream: Stream, m: nat, n: nat)
    requires m <= n <= POSITIONS
    ensures Indices(stream, m) <= Indices(stream, n)
  {
    hide IndexAt;
  }

  lemma {:induction false} FirstFound(stream: Stream, n: nat, k: nat) returns (p: nat)
    requires n <= POSITIONS && k in Indices(stream, n)
    ensures p < n && IndexAt(stream, 3 * p) == k && k !in Indices(stream, p)
  {
    hide IndexAt;
    IndicesGrow(stream, n - 1);
    if k in Indices(stream, n - 1) {
      p := FirstFound(stream, n - 1, k);
    } else {
      p := n - 1;
    }
  }
}
