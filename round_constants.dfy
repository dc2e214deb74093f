/**
  Round-constant generation in `poseidon-paramgen`: the constants of the
  AddRoundConstant step are drawn from a transcript that is first labelled and
  domain-separated with the whole parameter triple, and are laid out one row
  per round, one column per state element.

  The transcript is a STROBE-based hash whose output cannot be modelled; it is
  replaced by an abstract deterministic stream: the `k`-th constant drawn after
  a given history of absorbed inputs is `prf(history, k)` for a function `prf`
  the caller supplies.
 */
module RoundConstants {
  import opened Field
  import opened Matrices

  /** The fixed configuration of an instance: state width `t`, security target and field. */
  datatype InputParameters = InputParameters(t: nat, securityBits: nat, fieldModulus: nat)

  /** Full and partial round counts, chosen outside this core. */
  datatype RoundNumbers = RoundNumbers(full: nat, partial: nat)
  {
    /** `total`: every round, full or partial, gets one row of constants. */
    function Total(): (n: nat)
      ensures n >= full && n >= partial
    {
      full + partial
    }
  }

  /** The S-box exponent. */
  datatype Alpha = Alpha(exponent: int)

  /** What `domain_sep` absorbs into the transcript. */
  datatype Absorbed = DomainSeparator(input: InputParameters, rounds: RoundNumbers, alpha: Alpha)

  /** Everything a transcript has taken in: its label and the inputs absorbed since. */
  datatype History = History(name: string, absorbed: seq<Absorbed>)

  /** The label the round-constant transcript is created with. */
  const Label: string := "round-constants"

  /** The transcript's output stream: constant `k` drawn after a given history. */
  type Stream = (History, nat) -> Fe

  /** A transcript: its history and how many constants it has produced since. */
  class Transcript {
    var history: History
    var drawn: nat

    /** `Transcript::new(label)`. */
    constructor New(name: string)
      ensures history == History(name, []) && drawn == 0
    {
      history := History(name, []);
      drawn := 0;
    }

    /** `domain_sep`: absorbs the parameter triple. */
    method DomainSep(input: InputParameters, rounds: RoundNumbers, alpha: Alpha)
      modifies this
      ensures history == History(old(history).name, old(history).absorbed + [DomainSeparator(input, rounds, alpha)])
      ensures drawn == old(drawn)
    {
      history := History(history.name, history.absorbed + [DomainSeparator(input, rounds, alpha)]);
    }

    /** `round_constant`: the next element of the stream; the history is unchanged. */
    method RoundConstant(prf: Stream) returns (c: Fe)
      modifies this
      ensures c == prf(old(history), old(drawn))
      ensures history == old(history) && drawn == old(drawn) + 1
    {
      c := prf(history, drawn);
      drawn := drawn + 1;
    }
  }

  /** The history of the round-constant transcript once it is domain-separated. */
  function Seeded(input: InputParameters, rounds: RoundNumbers, alpha: Alpha): (h: History)
    ensures h.name == Label && |h.absorbed| == 1
  {
    History(Label, [DomainSeparator(input, rounds, alpha)])
  }

  /** The first `n` elements of the stream after history `h`. */
  function Drawn(prf: Stream, h: History, n: nat): (s: seq<Fe>)
    ensures |s| == n && forall k :: 0 <= k < n ==> s[k] == prf(h, k)
  {
    seq(n, k requires 0 <= k < n => prf(h, k))
  }

  /** The round constants of `poseidon-paramgen`: a matrix that is never updated in place. */
  datatype ArcMatrix = ArcMatrix(m: Matrix)
  {
    predicate Valid() { m.Valid() }

    /** `n_rows`: the wrapped matrix's row count, one per round. */
    function NRows(): (n: nat)
      requires Valid()
      ensures n * NCols() == |m.elements|
    {
      m.nRows
    }

    /** `n_cols`: the wrapped matrix's column count, one per state element. */
    function NCols(): (n: nat)
      requires Valid()
      ensures m.nRows * n == |m.elements|
    {
      m.nCols
    }
  }

  /** The matrix `generate` returns, as a function of its arguments and the stream. */
  function Generated(input: InputParameters, rounds: RoundNumbers, alpha: Alpha, prf: Stream): (a: ArcMatrix)
    ensures a.Valid() && a.m.nRows == rounds.Total() && a.m.nCols == input.t
  {
    var n := rounds.Total() * input.t;
    ArcMatrix(New(rounds.Total(), input.t, Drawn(prf, Seeded(input, rounds, alpha), n)))
  }

  /**
    `generate`: label the transcript, absorb the parameter triple, then draw
    `total * t` constants one after the other and lay them out row by row.
   */
  method Generate(input: InputParameters, rounds: RoundNumbers, alpha: Alpha, prf: Stream) returns (a: ArcMatrix)
    ensures a.Valid() && a.NRows() == rounds.Total() && a.NCols() == input.t
    ensures |a.m.elements| == (rounds.full + rounds.partial) * input.t
    ensures a.m.elements == Drawn(prf, Seeded(input, rounds, alpha), rounds.Total() * input.t)
    ensures a == Generated(input, rounds, alpha, prf)
  {
    var transcript := new Transcript.New(Label);
    transcript.DomainSep(input, rounds, alpha);
    var n := rounds.Total() * input.t;
    var elements: seq<Fe> := [];
    var k := 0;
    while k < n
      invariant 0 <= k <= n && transcript.drawn == k
      invariant transcript.history == Seeded(input, rounds, alpha)
      invariant elements == Drawn(prf, Seeded(input, rounds, alpha), k)
    {
      var c := transcript.RoundConstant(prf);
      elements := elements + [c];
      k := k + 1;
    }
    a := ArcMatrix(New(rounds.Total(), input.t, elements));
  }

  /**
    Constant `k` of the stream lands in row `k / t`, column `k % t`: each row
    holds the constants of one round, in the order they were drawn.
   */
  lemma GeneratedLayout(input: InputParameters, rounds: RoundNumbers, alpha: Alpha, prf: Stream, k: nat)
    requires k < rounds.Total() * input.t
    ensures var a := Generated(input, rounds, alpha, prf);
      input.t > 0 && k / input.t < rounds.Total() && k % input.t < input.t &&
      Get(a.m, k / input.t, k % input.t) == prf(Seeded(input, rounds, alpha), k)
  {
    var a := Generated(input, rounds, alpha, prf);
    DivModIndex(k, rounds.Total(), input.t);
    ElementPosition(a.m, k);
  }

  /** Element `(i, j)` is constant `i * t + j`: row `i` holds round `i`'s constants. */
  lemma GeneratedRows(input: InputParameters, rounds: RoundNumbers, alpha: Alpha, prf: Stream, i: nat, j: nat)
    requires i < rounds.Total() && j < input.t
    ensures Get(Generated(input, rounds, alpha, prf).m, i, j) == prf(Seeded(input, rounds, alpha), i * input.t + j)
  {
    RowEnd(i, rounds.Total(), input.t);
  }

  /**
    Distinct parameter triples give distinct seeded histories: two calls whose
    arguments differ in any component start drawing from different histories.
    Whether the streams then differ depends on the transcript's output
    function, which is a parameter of this model.
   */
  lemma SeededInjective(input1: InputParameters, rounds1: RoundNumbers, alpha1: Alpha,
                        input2: InputParameters, rounds2: RoundNumbers, alpha2: Alpha)
    requires Seeded(input1, rounds1, alpha1) == Seeded(input2, rounds2, alpha2)
    ensures input1 == input2 && rounds1 == rounds2 && alpha1 == alpha2
  {
    assert Seeded(input1, rounds1, alpha1).absorbed[0] == DomainSeparator(input1, rounds1, alpha1);
  }

  /**
    `Into<Vec<Vec<F>>>`: one inner sequence per row, element `(i, j)` at
    `rows[i][j]`, built with two nested loops.
   */
  method IntoRows(a: ArcMatrix) returns (rows: seq<seq<Fe>>)
    requires a.Valid()
    ensures |rows| == a.NRows()
    ensures forall i :: 0 <= i < |rows| ==> |rows[i]| == a.NCols()
    ensures forall i, j :: 0 <= i < |rows| && 0 <= j < a.NCols() ==> rows[i][j] == Get(a.m, i, j)
    ensures rows == Rows(a.m)
  {
    rows := [];
    var i := 0;
    while i < a.NRows()
      invariant 0 <= i <= a.NRows()
      invariant rows == Rows(a.m)[..i]
    {
      var row: seq<Fe> := [];
      var j := 0;
      while j < a.NCols()
        invariant 0 <= j <= a.NCols()
        invariant row == Row(a.m, i)[..j]
      {
        row := row + [Get(a.m, i, j)];
        j := j + 1;
      }
      assert row == Row(a.m, i) == Rows(a.m)[i];
      assert Rows(a.m)[..i + 1] == Rows(a.m)[..i] + [Rows(a.m)[i]];
      rows := rows + [row];
      i := i + 1;
    }
    assert rows == Rows(a.m)[..a.NRows()];
  }

  /** The `2 x 3` conversion fixture `[[1, 2, 0], [4, 5, 6]]`. */
  function ConversionFixture(): (a: ArcMatrix)
    ensures a.Valid() && a.m.nRows == 2 && a.m.nCols == 3
  {
    ArcMatrix(New(2, 3, [1, 2, 0, 4, 5, 6]))
  }

  /** Converting the fixture gives `[[1, 2, 0], [4, 5, 6]]`. */
  lemma ConversionFixtureRows(a: ArcMatrix)
    requires a == ConversionFixture()
    ensures var rows := Rows(a.m);
      |rows| == 2 && rows[0] == [1, 2, 0] && rows[1] == [4, 5, 6]
  {
    var rows := Rows(a.m);
    assert rows[0] == a.m.elements[0..3];
    assert rows[1] == a.m.elements[3..6];
  }
}
