/**
 * The proof-to-calldata adapter of `CryptoEngine.calucateZkProof`: the Plonk
 * verifier's calldata text is cut into its bracket-delimited groups, as
 * `proofCalldata.match(/\[.*?\]/g)` does, and when there are exactly two the
 * proof and the public signals are replaced by the groups parsed as JSON.
 */
module ProofAdapter {
  import opened Wrappers
  import opened JsText
  import opened Primitives
  import opened JsValues

  // ---------------------------------------------------------------------------
  // /\[.*?\]/g
  // ---------------------------------------------------------------------------

  /** One match: `s[start..end]`. */
  datatype Span = Span(start: nat, end: nat)

  ghost predicate NoLineTerminator(s: string, from: nat, to: nat)
    requires from <= to <= |s|
  {
    forall m :: from <= m < to ==> !IsLineTerminator(s[m])
  }

  /** The pattern matches `s[i..j + 1]`: `[` at `i`, `]` at `j`, and `.` (any
      character but a line terminator) in between. */
  ghost predicate MatchesAt(s: string, i: int, j: int)
  {
    0 <= i < j < |s| && s[i] == '[' && s[j] == ']' && NoLineTerminator(s, i + 1, j)
  }

  /** Where the lazy `.*?\]` that starts at `k` ends: the first `]` at or after
      `k`, unless a line terminator comes first. */
  function CloseFrom(s: string, k: nat): (r: Option<nat>)
    requires k <= |s|
    ensures r.Some? ==> k <= r.value < |s| && s[r.value] == ']'
    decreases |s| - k
  {
    if k == |s| then None
    else if s[k] == ']' then Some(k)
    else if IsLineTerminator(s[k]) then None
    else CloseFrom(s, k + 1)
  }

  /** The end found is the first `]`, with no line terminator before it; when
      none is found, every `]` has a line terminator before it. */
  lemma {:induction false} CloseFromFirst(s: string, k: nat)
    requires k <= |s|
    ensures CloseFrom(s, k).Some? ==>
      forall m :: k <= m < CloseFrom(s, k).value ==> s[m] != ']' && !IsLineTerminator(s[m])
    ensures CloseFrom(s, k).None? ==>
      forall j :: k <= j < |s| && s[j] == ']' ==> !NoLineTerminator(s, k, j)
    decreases |s| - k
  {
    if k < |s| && s[k] != ']' && !IsLineTerminator(s[k]) {
      CloseFromFirst(s, k + 1);
    }
  }

  /** `CloseFrom` is the lazy quantifier's choice: the shortest match starting
      at `i`, and there is none when it finds none. */
  lemma CloseFromIsShortestMatch(s: string, i: nat)
    requires i < |s| && s[i] == '['
    ensures CloseFrom(s, i + 1).Some? ==>
      MatchesAt(s, i, CloseFrom(s, i + 1).value) &&
      forall j :: i < j < CloseFrom(s, i + 1).value ==> !MatchesAt(s, i, j)
    ensures CloseFrom(s, i + 1).None? ==> forall j :: !MatchesAt(s, i, j)
  {
    CloseFromFirst(s, i + 1);
  }

  /** The matches of the global search from index `i`: at each position where
      a match starts it is taken and the search resumes after it; elsewhere the
      search moves on by one. */
  function SpansFrom(s: string, i: nat): (spans: seq<Span>)
    requires i <= |s|
    ensures forall k :: 0 <= k < |spans| ==> i <= spans[k].start < spans[k].end <= |s|
    decreases |s| - i
  {
    if i == |s| then []
    else if s[i] == '[' && CloseFrom(s, i + 1).Some? then
      var j := CloseFrom(s, i + 1).value;
      [Span(i, j + 1)] + SpansFrom(s, j + 1)
    else SpansFrom(s, i + 1)
  }

  /** Each span taken is a match of the pattern, and the spans follow each
      other without overlapping. */
  ghost predicate SpansWellFormed(s: string, spans: seq<Span>)
  {
    && (forall k :: 0 <= k < |spans| ==> MatchesAt(s, spans[k].start, spans[k].end - 1))
    && (forall k :: 0 <= k < |spans| - 1 ==> spans[k].end <= spans[k + 1].start)
  }

  lemma {:induction false} SpansFromWellFormed(s: string, i: nat)
    requires i <= |s|
    ensures SpansWellFormed(s, SpansFrom(s, i))
    decreases |s| - i
  {
    if i == |s| {
    } else if s[i] == '[' && CloseFrom(s, i + 1).Some? {
      var j := CloseFrom(s, i + 1).value;
      var rest := SpansFrom(s, j + 1);
      SpansFromWellFormed(s, j + 1);
      CloseFromIsShortestMatch(s, i);
      ConsWellFormed(s, Span(i, j + 1), rest);
    } else {
      SpansFromWellFormed(s, i + 1);
    }
  }

  /** The search is lazy: no group contains a `]` before its last character,
      so each group ends at the first `]` after its `[`. */
  lemma {:induction false} SpansFromLazy(s: string, p: nat)
    requires p <= |s|
    ensures forall k, m :: 0 <= k < |SpansFrom(s, p)| && SpansFrom(s, p)[k].start < m < SpansFrom(s, p)[k].end - 1 ==>
      s[m] != ']'
    decreases |s| - p
  {
    var spans := SpansFrom(s, p);
    if p == |s| {
    } else if s[p] == '[' && CloseFrom(s, p + 1).Some? {
      var c := CloseFrom(s, p + 1).value;
      var rest := SpansFrom(s, c + 1);
      assert spans == [Span(p, c + 1)] + rest;
      CloseFromFirst(s, p + 1);
      SpansFromLazy(s, c + 1);
      forall k, m | 0 <= k < |spans| && spans[k].start < m < spans[k].end - 1
        ensures s[m] != ']'
      {
        if k > 0 {
          assert spans[k] == rest[k - 1];
        }
      }
    } else {
      assert spans == SpansFrom(s, p + 1);
      SpansFromLazy(s, p + 1);
    }
  }

  lemma ConsWellFormed(s: string, first: Span, rest: seq<Span>)
    requires MatchesAt(s, first.start, first.end - 1)
    requires SpansWellFormed(s, rest)
    requires rest != [] ==> first.end <= rest[0].start
    ensures SpansWellFormed(s, [first] + rest)
  {
    var spans := [first] + rest;
    forall k | 0 <= k < |spans| ensures MatchesAt(s, spans[k].start, spans[k].end - 1) {
      if k > 0 {
        assert spans[k] == rest[k - 1];
      }
    }
    forall k | 0 <= k < |spans| - 1 ensures spans[k].end <= spans[k + 1].start {
      if k > 0 {
        assert spans[k] == rest[k - 1] && spans[k + 1] == rest[k];
      }
    }
  }

  /** No match is missed: the search from `p` takes a group around every
      position at or after `p` where the pattern matches. */
  lemma {:induction false} SpansFromCover(s: string, p: nat, i: nat, j: int)
    requires p <= i && p <= |s| && MatchesAt(s, i, j)
    ensures exists k :: 0 <= k < |SpansFrom(s, p)| && SpansFrom(s, p)[k].start <= i < SpansFrom(s, p)[k].end
    decreases |s| - p
  {
    var spans := SpansFrom(s, p);
    if s[p] == '[' && CloseFrom(s, p + 1).Some? {
      var c := CloseFrom(s, p + 1).value;
      assert spans == [Span(p, c + 1)] + SpansFrom(s, c + 1);
      if i <= c {
        assert spans[0].start <= i < spans[0].end;
      } else {
        SpansFromCover(s, c + 1, i, j);
        var k :| 0 <= k < |SpansFrom(s, c + 1)| && SpansFrom(s, c + 1)[k].start <= i < SpansFrom(s, c + 1)[k].end;
        assert spans[k + 1] == SpansFrom(s, c + 1)[k];
      }
    } else {
      if i == p {
        CloseFromIsShortestMatch(s, p);
        assert false;
      }
      assert spans == SpansFrom(s, p + 1);
      SpansFromCover(s, p + 1, i, j);
    }
  }

  /** Every match of the pattern in `s` lies inside one of the groups that
      `s.match(/\[.*?\]/g)` returns. */
  lemma SpansCover(s: string, i: nat, j: int)
    requires MatchesAt(s, i, j)
    ensures exists k ::
      && 0 <= k < |SpansFrom(s, 0)|
      && SpansFrom(s, 0)[k].start <= i < SpansFrom(s, 0)[k].end
      && Matches(s)[k] == s[SpansFrom(s, 0)[k].start..SpansFrom(s, 0)[k].end]
  {
    SpansFromCover(s, 0, i, j);
  }

  /** The texts of the given spans. */
  function Texts(s: string, spans: seq<Span>): seq<string>
    requires forall k :: 0 <= k < |spans| ==> spans[k].start <= spans[k].end <= |s|
  {
    seq(|spans|, k requires 0 <= k < |spans| => s[spans[k].start..spans[k].end])
  }

  /** `s.match(/\[.*?\]/g)`, with `null` (no match) as the empty sequence. */
  function Matches(s: string): seq<string>
  {
    Texts(s, SpansFrom(s, 0))
  }

  lemma TextsCons(s: string, first: Span, rest: seq<Span>)
    requires first.start <= first.end <= |s|
    requires forall k :: 0 <= k < |rest| ==> rest[k].start <= rest[k].end <= |s|
    ensures Texts(s, [first] + rest) == [s[first.start..first.end]] + Texts(s, rest)
  {
    var spans := [first] + rest;
    var lhs, rhs := Texts(s, spans), [s[first.start..first.end]] + Texts(s, rest);
    forall k | 0 <= k < |lhs| ensures lhs[k] == rhs[k] {
      if k > 0 {
        assert spans[k] == rest[k - 1];
      }
    }
  }

  /** The search takes the match at `i`, then resumes after it. */
  lemma TextsOfMatch(s: string, i: nat, j: nat)
    requires i < |s| && s[i] == '[' && CloseFrom(s, i + 1) == Some(j)
    ensures Texts(s, SpansFrom(s, i)) == [s[i..j + 1]] + Texts(s, SpansFrom(s, j + 1))
  {
    assert SpansFrom(s, i) == [Span(i, j + 1)] + SpansFrom(s, j + 1);
    TextsCons(s, Span(i, j + 1), SpansFrom(s, j + 1));
  }

  /** The regular-expression search written as a scanner. */
  method MatchBrackets(s: string) returns (groups: seq<string>)
    ensures groups == Matches(s)
  {
    groups := [];
    var i := 0;
    while i < |s|
      invariant 0 <= i <= |s|
      invariant groups + Texts(s, SpansFrom(s, i)) == Matches(s)
      decreases |s| - i
    {
      if s[i] == '[' {
        var j := i + 1;
        while j < |s| && s[j] != ']' && !IsLineTerminator(s[j])
          invariant i + 1 <= j <= |s|
          invariant CloseFrom(s, j) == CloseFrom(s, i + 1)
          decreases |s| - j
        {
          j := j + 1;
        }
        if j < |s| && s[j] == ']' {
          TextsOfMatch(s, i, j);
          groups := groups + [s[i..j + 1]];
          i := j + 1;
        } else {
          assert SpansFrom(s, i) == SpansFrom(s, i + 1);
          i := i + 1;
        }
      } else {
        assert SpansFrom(s, i) == SpansFrom(s, i + 1);
        i := i + 1;
      }
    }
  }

  /** Every group is a `[`-to-first-`]` substring with no line terminator, and
      the groups occur in `s` left to right without overlapping. */
  lemma MatchesShape(s: string)
    ensures var spans := SpansFrom(s, 0);
      && |Matches(s)| == |spans|
      && (forall k :: 0 <= k < |spans| ==> Matches(s)[k] == s[spans[k].start..spans[k].end])
      && SpansWellFormed(s, spans)
      && (forall k, m :: 0 <= k < |spans| && spans[k].start < m < spans[k].end - 1 ==> s[m] != ']')
  {
    SpansFromWellFormed(s, 0);
    SpansFromLazy(s, 0);
  }

  // ---------------------------------------------------------------------------
  // The count guard
  // ---------------------------------------------------------------------------

  /** What the prover returns: the proof and the public signals. */
  datatype ProverOutput = ProverOutput(proof: Json, publicSignals: Json)

  /** Proof and public signals after the count guard: replaced by the two groups
      parsed as JSON when there are exactly two, the prover's own otherwise;
      `JSON.parse` throwing on a group is a SyntaxError. */
  function PlonkCalldata(j: JsonCodec, prover: ProverOutput, proofCalldata: string): Result<ProverOutput, JsError>
  {
    var matches := Matches(proofCalldata);
    if |matches| != 2 then Success(prover)
    else
      match j.parse(matches[0])
      case None => Failure(SyntaxError)
      case Some(proof) =>
        match j.parse(matches[1])
        case None => Failure(SyntaxError)
        case Some(publicSignals) => Success(ProverOutput(proof, publicSignals))
  }

  /** Lines 249-255 of `calucateZkProof` (and lines 41-47 of the ETHPay test):
      search the groups, and overwrite `proof` and `publicSignals` only when
      there are exactly two. */
  method ParsePlonkCalldata(j: JsonCodec, prover: ProverOutput, proofCalldata: string)
    returns (r: Result<ProverOutput, JsError>)
    ensures r == PlonkCalldata(j, prover, proofCalldata)
    ensures |Matches(proofCalldata)| != 2 ==> r == Success(prover)
  {
    var proof, publicSignals := prover.proof, prover.publicSignals;
    var matches := MatchBrackets(proofCalldata);
    if |matches| == 2 {
      var first := j.parse(matches[0]);
      if first.None? {
        return Failure(SyntaxError);
      }
      proof := first.value;
      var second := j.parse(matches[1]);
      if second.None? {
        return Failure(SyntaxError);
      }
      publicSignals := second.value;
    }
    r := Success(ProverOutput(proof, publicSignals));
  }

  /** When the calldata's two groups are the JSON texts of a proof and of the
      signals, the guard recovers exactly those values. */
  lemma PlonkCalldataRoundTrip(j: JsonCodec, prover: ProverOutput, proofCalldata: string, proof: Json, publicSignals: Json)
    requires JsonLaws(j) && IsJsValue(proof) && IsJsValue(publicSignals)
    requires Matches(proofCalldata) == [j.stringify(proof), j.stringify(publicSignals)]
    ensures PlonkCalldata(j, prover, proofCalldata) == Success(ProverOutput(proof, publicSignals))
  {
    assert j.parse(j.stringify(proof)) == Some(proof);
    assert j.parse(j.stringify(publicSignals)) == Some(publicSignals);
  }

  /** The stricter contract: a group count other than two is a FormatMismatch. */
  function StrictPlonkCalldata(j: JsonCodec, proofCalldata: string): (r: Result<ProverOutput, JsError>)
    ensures r == Failure(FormatMismatch) <==> |Matches(proofCalldata)| != 2
  {
    var matches := Matches(proofCalldata);
    if |matches| != 2 then Failure(FormatMismatch)
    else
      match j.parse(matches[0])
      case None => Failure(SyntaxError)
      case Some(proof) =>
        match j.parse(matches[1])
        case None => Failure(SyntaxError)
        case Some(publicSignals) => Success(ProverOutput(proof, publicSignals))
  }

  /** The code's guard and the strict contract agree when there are two
      groups; otherwise the code passes the prover's values through silently
      where the strict contract fails. */
  lemma GuardVersusStrict(j: JsonCodec, prover: ProverOutput, proofCalldata: string)
    ensures |Matches(proofCalldata)| == 2 ==> PlonkCalldata(j, prover, proofCalldata) == StrictPlonkCalldata(j, proofCalldata)
    ensures |Matches(proofCalldata)| != 2 ==>
      PlonkCalldata(j, prover, proofCalldata) == Success(prover) &&
      StrictPlonkCalldata(j, proofCalldata) == Failure(FormatMismatch)
  {
  }
}
