/**
 * The user's selection (historical.py): the answer to the
 * "Selected Commands" prompt is split on commas and every piece is passed
 * to `int`, giving 0-based indices into the displayed list.
 */
module Selection {
  import opened Base
  import opened Builtins

  /** The index of the first term `int` rejects, or the number of terms. */
  function FirstInvalid(terms: seq<string>): (i: nat)
    ensures i <= |terms|
  {
    if terms == [] || ParseInt(terms[0]).None? then 0 else 1 + FirstInvalid(terms[1..])
  }

  /** Every term before `FirstInvalid` is an integer, and the one at it is not. */
  lemma {:induction false} FirstInvalidSpec(terms: seq<string>)
    ensures forall k :: 0 <= k < FirstInvalid(terms) ==> ParseInt(terms[k]).Some?
    ensures FirstInvalid(terms) < |terms| ==> ParseInt(terms[FirstInvalid(terms)]).None?
  {
    if terms != [] && ParseInt(terms[0]).Some? {
      var tail := terms[1..];
      FirstInvalidSpec(tail);
      var j := FirstInvalid(tail);
      assert FirstInvalid(terms) == 1 + j;
      forall k | 1 <= k < 1 + j ensures ParseInt(terms[k]).Some? {
        assert terms[k] == tail[k - 1];
      }
      if 1 + j < |terms| {
        assert terms[1 + j] == tail[j];
      }
    }
  }

  /**
   * `[int(s) for s in selections]`: every term converted, or the
   * ValueError of the first term that is not an integer.
   */
  function ConvertAll(terms: seq<string>): (r: Result<seq<int>, Error>)
    ensures r.Ok? ==> |r.value| == |terms|
    ensures r.Err? ==> r.error.InvalidLiteral? && ParseInt(r.error.term).None?
  {
    if terms == [] then Ok([])
    else
      match ParseInt(terms[0])
      case None => Err(InvalidLiteral(terms[0]))
      case Some(n) =>
        match ConvertAll(terms[1..])
        case Err(e) => Err(e)
        case Ok(ns) => Ok([n] + ns)
  }

  /**
   * The conversion succeeds exactly when every term is an integer, and
   * then holds their values in order; otherwise it names the first term
   * that is not.
   */
  lemma ConvertAllSpec(terms: seq<string>)
    ensures var r := ConvertAll(terms);
      && (r.Ok? <==> forall i :: 0 <= i < |terms| ==> ParseInt(terms[i]).Some?)
      && (r.Ok? ==> |r.value| == |terms| && forall i :: 0 <= i < |terms| ==> Some(r.value[i]) == ParseInt(terms[i]))
      && (r.Err? ==> FirstInvalid(terms) < |terms| && r.error == InvalidLiteral(terms[FirstInvalid(terms)]))
  {
    ConvertAllValues(terms);
    ConvertAllError(terms);
  }

  lemma {:induction false} ConvertAllValues(terms: seq<string>)
    ensures var r := ConvertAll(terms);
      && (r.Ok? <==> forall i :: 0 <= i < |terms| ==> ParseInt(terms[i]).Some?)
      && (r.Ok? ==> |r.value| == |terms| && forall i :: 0 <= i < |terms| ==> Some(r.value[i]) == ParseInt(terms[i]))
  {
    if terms != [] && ParseInt(terms[0]).Some? {
      var tail := terms[1..];
      ConvertAllValues(tail);
      assert forall i :: 1 <= i < |terms| ==> terms[i] == tail[i - 1];
    }
  }

  lemma {:induction false} ConvertAllError(terms: seq<string>)
    ensures var r := ConvertAll(terms);
      r.Err? ==> FirstInvalid(terms) < |terms| && r.error == InvalidLiteral(terms[FirstInvalid(terms)])
  {
    if terms != [] && ParseInt(terms[0]).Some? {
      var tail := terms[1..];
      ConvertAllError(tail);
      assert FirstInvalid(terms) == 1 + FirstInvalid(tail);
      if ConvertAll(tail).Err? {
        assert ConvertAll(terms) == ConvertAll(tail);
        assert tail[FirstInvalid(tail)] == terms[FirstInvalid(terms)];
      }
    }
  }

  /** `raw_input(...).split(',')` followed by the conversion of every piece. */
  function ParseSelection(s: string): (r: Result<seq<int>, Error>)
    ensures r.Ok? ==> |r.value| == Occurrences(s, ',') + 1
    ensures r.Err? ==> r.error.InvalidLiteral? && ',' !in r.error.term
  {
    var terms := Split(s, ',');
    SplitSpec(s, ',');
    ConvertAllError(terms);
    ConvertAll(terms)
  }

  /** An empty answer is one empty term, which `int` rejects. */
  lemma ParseSelectionEmpty()
    ensures ParseSelection("") == Err(InvalidLiteral(""))
  {
    assert Split("", ',') == [""];
    ParseIntRejectsBlank("");
  }

  /** The decimal terms of a list of indices, as a user would type them. */
  function IndexTerms(ns: seq<nat>): seq<string>
  {
    seq(|ns|, i requires 0 <= i < |ns| => NatToString(ns[i]))
  }

  /**
   * Typing the displayed numbers back, comma separated, selects exactly
   * those numbers, in the order typed and with repetitions kept.
   */
  lemma ParseSelectionOfIndices(ns: seq<nat>)
    requires ns != []
    ensures ParseSelection(Join(IndexTerms(ns), ',')) == Ok(ns)
  {
    var terms := IndexTerms(ns);
    forall i | 0 <= i < |terms| ensures ',' !in terms[i] {
      assert forall k :: 0 <= k < |terms[i]| ==> IsDigit(terms[i][k]);
    }
    SplitJoin(terms, ',');
    ConvertIndexTerms(ns);
  }

  lemma ConvertIndexTerms(ns: seq<nat>)
    ensures ConvertAll(IndexTerms(ns)) == Ok(ns)
  {
    var terms := IndexTerms(ns);
    forall i | 0 <= i < |terms| ensures ParseInt(terms[i]) == Some(ns[i]) {
      ParseIndexTerm(ns[i]);
    }
    var r := ConvertAll(terms);
    ConvertAllValues(terms);
    forall i | 0 <= i < |ns| ensures r.value[i] == ns[i] {
      assert Some(r.value[i]) == ParseInt(terms[i]);
    }
    assert r.value == ns;
  }

  /** The decimal string of an index reads back as that index. */
  lemma ParseIndexTerm(n: nat)
    ensures ParseInt(NatToString(n)) == Some(n)
  {
    ParseIntNatToString(n, [], []);
    assert [] + NatToString(n) + [] == NatToString(n);
  }
}
