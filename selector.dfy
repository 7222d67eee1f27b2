/**
  Resolving which manifest entries a run downloads, from the menu choice and,
  for "specific datasets", the comma-separated list of 1-based numbers
  (download_datasets.py, lines 87-104).
 */
module Selector {
  import opened Wrappers
  import opened PyStr

  /** The two exceptions the selection step can raise; neither is caught, so each ends the run. */
  datatype SelectError =
    | ValueError(literal: string)  // `int()` refused this (stripped) token
    | IndexError(index: int)       // a 0-based index below `-len(datasets)` reached the subscript

  /** What the selection step leads to. */
  datatype Selection<T> =
    | Proceed(entries: seq<T>)  // go on to download these, in this order
    | Exit                      // any choice but "1" or "2": print "Exiting." and return
    | Raised(error: SelectError)

  /**
    The number a token gives under `int(token.strip())`, if any; `int()`
    strips again, which changes nothing (`TokenNumberIsInt`).
   */
  function TokenNumber(token: string): Option<int> {
    IntLiteral(Strip(token))
  }

  lemma TokenNumberIsInt(token: string)
    ensures TokenNumber(token) == ParseInt(Strip(token))
  {
    StripShape(token);
    IntStripUnpadded(Strip(token));
  }

  /** The tokens of the second prompt's answer: `selections.strip().split(',')`. */
  function Tokens(selectionsLine: string): seq<string> {
    Split(Strip(selectionsLine), ',')
  }

  /** The position of the first token `int()` refuses, or `|tokens|` when every token converts. */
  function FirstMalformed(tokens: seq<string>): (j: nat)
    ensures j <= |tokens|
    ensures j < |tokens| ==> TokenNumber(tokens[j]).None?
    ensures forall i :: 0 <= i < j ==> TokenNumber(tokens[i]).Some?
  {
    if tokens == [] || TokenNumber(tokens[0]).None? then 0
    else
      var j := FirstMalformed(tokens[1..]);
      assert forall i :: 1 <= i <= j && i < |tokens| ==> tokens[i] == tokens[1..][i - 1];
      1 + j
  }

  /**
    `[int(idx.strip()) - 1 for idx in tokens]`: every token is converted, left
    to right, before any is used; the first one `int()` refuses raises.
   */
  function TokenIndices(tokens: seq<string>): Result<seq<int>, SelectError> {
    if tokens == [] then Success([])
    else match TokenNumber(tokens[0])
      case None => Failure(ValueError(Strip(tokens[0])))
      case Some(k) =>
        match TokenIndices(tokens[1..])
        case Failure(e) => Failure(e)
        case Success(rest) => Success([k - 1] + rest)
  }

  /**
    The conversion succeeds exactly when every token converts, and then gives
    `int(token.strip()) - 1` for each token in order; otherwise it raises
    `ValueError` for the first token `int()` refuses.
   */
  lemma {:induction false} TokenIndicesOutcome(tokens: seq<string>)
    ensures var r := TokenIndices(tokens);
      && (r.Success? <==> FirstMalformed(tokens) == |tokens|)
      && (r.Success? ==>
           && |r.value| == |tokens|
           && forall j :: 0 <= j < |tokens| ==> r.value[j] == TokenNumber(tokens[j]).value - 1)
      && (r.Failure? ==> r.error == ValueError(Strip(tokens[FirstMalformed(tokens)])))
  {
    if tokens != [] {
      TokenIndicesOutcome(tokens[1..]);
    }
  }

  /** Whether `xs[i]` is a valid Python subscript: `-len(xs) <= i < len(xs)`. */
  predicate InPyRange<T>(xs: seq<T>, i: int) {
    -|xs| <= i < |xs|
  }

  /** Python's `xs[i]`, where a negative `i` counts from the end. */
  function PyGet<T>(xs: seq<T>, i: int): (x: T)
    requires InPyRange(xs, i)
    ensures x in xs
  {
    if i >= 0 then xs[i] else xs[|xs| + i]
  }

  /**
    `[xs[i] for i in indices if i < len(xs)]`: indices past the end are
    dropped, the rest are subscripted in the order given, and the first one
    below `-len(xs)` raises.
   */
  function Pick<T>(xs: seq<T>, indices: seq<int>): Result<seq<T>, SelectError> {
    if indices == [] then Success([])
    else
      var i := indices[0];
      if i >= |xs| then Pick(xs, indices[1..])
      else if i < -|xs| then Failure(IndexError(i))
      else match Pick(xs, indices[1..])
        case Failure(e) => Failure(e)
        case Success(rest) => Success([PyGet(xs, i)] + rest)
  }

  /**
    `Pick` raises exactly when some index that passes the `i < len(xs)` filter
    is below `-len(xs)`, and then for such an index; otherwise it yields at
    most one entry per index, each an entry of `xs`.
   */
  lemma {:induction false} PickOutcome<T>(xs: seq<T>, indices: seq<int>)
    ensures var r := Pick(xs, indices);
      && (r.Success? <==> forall j :: 0 <= j < |indices| && indices[j] < |xs| ==> -|xs| <= indices[j])
      && (r.Success? ==> |r.value| <= |indices| && forall x :: x in r.value ==> x in xs)
      && (r.Failure? ==> r.error.IndexError? && r.error.index < -|xs| && r.error.index in indices)
  {
    if indices != [] {
      PickOutcome(xs, indices[1..]);
    }
  }

  /** `[i for i in indices if i < bound]`: the indices that pass the filter, in the order given. */
  function Below(indices: seq<int>, bound: int): (kept: seq<int>)
    ensures |kept| <= |indices|
    ensures forall j :: 0 <= j < |kept| ==> kept[j] < bound && kept[j] in indices
  {
    if indices == [] then []
    else (if indices[0] < bound then [indices[0]] else []) + Below(indices[1..], bound)
  }

  /** The filter keeps every index below the bound as often as it occurs, and no other. */
  lemma {:induction false} BelowMultiset(indices: seq<int>, bound: int)
    ensures forall i :: multiset(Below(indices, bound))[i] == if i < bound then multiset(indices)[i] else 0
  {
    if indices != [] {
      BelowMultiset(indices[1..], bound);
      assert indices == [indices[0]] + indices[1..];
    }
  }

  /** The filter works element by element, so it keeps the order of the indices. */
  lemma {:induction false} BelowConcat(a: seq<int>, b: seq<int>, bound: int)
    ensures Below(a + b, bound) == Below(a, bound) + Below(b, bound)
  {
    if a != [] {
      assert (a + b)[0] == a[0] && (a + b)[1..] == a[1..] + b;
      BelowConcat(a[1..], b, bound);
      var head := if a[0] < bound then [a[0]] else [];
      assert Below(a + b, bound) == head + Below(a[1..] + b, bound);
      assert Below(a, bound) == head + Below(a[1..], bound);
      assert head + (Below(a[1..], bound) + Below(b, bound)) == (head + Below(a[1..], bound)) + Below(b, bound);
    } else {
      assert a + b == b;
    }
  }

  /**
    When no index that passes the filter is below `-len(xs)`, `Pick` is the
    filter followed by one Python subscript per kept index: past-end indices
    are dropped, order and duplicates are kept.
   */
  lemma {:induction false} PickFilterThenSubscript<T>(xs: seq<T>, indices: seq<int>)
    requires forall i :: i in indices && i < |xs| ==> -|xs| <= i
    ensures var kept := Below(indices, |xs|);
      && Pick(xs, indices).Success?
      && |Pick(xs, indices).value| == |kept|
      && forall j :: 0 <= j < |kept| ==> Pick(xs, indices).value[j] == PyGet(xs, kept[j])
  {
    if indices != [] {
      var i, rest := indices[0], indices[1..];
      assert forall x :: x in rest ==> x in indices;
      PickFilterThenSubscript(xs, rest);
      if i < |xs| {
        assert i in indices;
        var k := Below(rest, |xs|);
        assert Below(indices, |xs|) == [i] + k;
        assert Pick(xs, indices).value == [PyGet(xs, i)] + Pick(xs, rest).value;
      }
    }
  }

  /** The whole selection step, from the two answers typed at the prompts. */
  function Resolve<T>(manifest: seq<T>, choiceLine: string, selectionsLine: string): Selection<T> {
    var choice := Strip(choiceLine);
    if choice == "1" then Proceed(manifest)
    else if choice == "2" then
      match TokenIndices(Tokens(selectionsLine))
      case Failure(e) => Raised(e)
      case Success(indices) =>
        match Pick(manifest, indices)
        case Failure(e) => Raised(e)
        case Success(picked) => Proceed(picked)
    else Exit
  }

  /** Choice "1" selects the whole manifest, in manifest order. */
  lemma ChooseAll<T>(manifest: seq<T>, choiceLine: string, selectionsLine: string)
    requires Strip(choiceLine) == "1"
    ensures Resolve(manifest, choiceLine, selectionsLine) == Proceed(manifest)
  {
  }

  /** Any choice other than "1" and "2" ends the run with nothing selected. */
  lemma ChooseOther<T>(manifest: seq<T>, choiceLine: string, selectionsLine: string)
    ensures Resolve(manifest, choiceLine, selectionsLine).Exit? <==>
      Strip(choiceLine) != "1" && Strip(choiceLine) != "2"
  {
  }

  /** With only indices inside the Python range, `Pick` subscripts each, keeping order and duplicates. */
  lemma {:induction false} PickInRange<T>(xs: seq<T>, indices: seq<int>)
    requires forall j :: 0 <= j < |indices| ==> InPyRange(xs, indices[j])
    ensures Pick(xs, indices).Success?
    ensures |Pick(xs, indices).value| == |indices|
    ensures forall j :: 0 <= j < |indices| ==> Pick(xs, indices).value[j] == PyGet(xs, indices[j])
  {
    if indices != [] {
      PickInRange(xs, indices[1..]);
    }
  }

  /** Indices past the end are dropped wherever they stand: they never change the picked list. */
  lemma {:induction false} PickDropsPastEnd<T>(xs: seq<T>, before: seq<int>, i: int, after: seq<int>)
    requires i >= |xs|
    ensures Pick(xs, before + [i] + after) == Pick(xs, before + after)
  {
    if before == [] {
      assert ([] + [i] + after)[1..] == after;
      assert [] + after == after;
    } else {
      assert (before + [i] + after)[1..] == before[1..] + [i] + after;
      assert (before + after)[1..] == before[1..] + after;
      PickDropsPastEnd(xs, before[1..], i, after);
    }
  }

  /**
    Choice "2" with tokens that all convert, `indices` being the converted
    numbers minus one: the run proceeds exactly when no index that passes the
    `< len(datasets)` filter is below `-len(datasets)`, and then selects the
    filtered indices' entries in the order typed, duplicates kept; otherwise
    it raises `IndexError` for a typed index below `-len(datasets)`.
   */
  lemma ChooseSpecific<T>(manifest: seq<T>, choiceLine: string, selectionsLine: string, indices: seq<int>)
    requires Strip(choiceLine) == "2"
    requires |indices| == |Tokens(selectionsLine)|
    requires forall j :: 0 <= j < |indices| ==> TokenNumber(Tokens(selectionsLine)[j]) == Some(indices[j] + 1)
    ensures Resolve(manifest, choiceLine, selectionsLine).Proceed? <==>
      forall i :: i in indices && i < |manifest| ==> -|manifest| <= i
    ensures Resolve(manifest, choiceLine, selectionsLine).Proceed? ==>
      var kept, entries := Below(indices, |manifest|), Resolve(manifest, choiceLine, selectionsLine).entries;
      && |entries| == |kept|
      && forall j :: 0 <= j < |kept| ==> entries[j] == PyGet(manifest, kept[j])
    ensures !Resolve(manifest, choiceLine, selectionsLine).Proceed? ==>
      && Resolve(manifest, choiceLine, selectionsLine).Raised?
      && Resolve(manifest, choiceLine, selectionsLine).error.IndexError?
      && Resolve(manifest, choiceLine, selectionsLine).error.index in indices
      && Resolve(manifest, choiceLine, selectionsLine).error.index < -|manifest|
  {
    var tokens := Tokens(selectionsLine);
    TokenIndicesOutcome(tokens);
    assert FirstMalformed(tokens) == |tokens|;
    assert TokenIndices(tokens).value == indices;
    PickOutcome(manifest, indices);
    if forall i :: i in indices && i < |manifest| ==> -|manifest| <= i {
      PickFilterThenSubscript(manifest, indices);
    }
  }

  lemma ConvertedTokens(tokens: seq<string>, numbers: seq<int>)
    requires |numbers| == |tokens|
    requires forall j :: 0 <= j < |tokens| ==> TokenNumber(tokens[j]) == Some(numbers[j])
    ensures TokenIndices(tokens).Success?
    ensures |TokenIndices(tokens).value| == |numbers|
    ensures forall j :: 0 <= j < |numbers| ==> TokenIndices(tokens).value[j] == numbers[j] - 1
  {
    TokenIndicesOutcome(tokens);
    assert FirstMalformed(tokens) == |tokens|;
  }

  /**
    Choice "2" where the tokens read as the numbers `numbers`, all in
    1..len(manifest): the entries so numbered, in the order typed,
    duplicates included.
   */
  lemma ChooseSpecificInRange<T>(manifest: seq<T>, choiceLine: string, selectionsLine: string, numbers: seq<int>)
    requires Strip(choiceLine) == "2"
    requires |numbers| == |Tokens(selectionsLine)|
    requires forall j :: 0 <= j < |numbers| ==> TokenNumber(Tokens(selectionsLine)[j]) == Some(numbers[j])
    requires forall j :: 0 <= j < |numbers| ==> 1 <= numbers[j] <= |manifest|
    ensures Resolve(manifest, choiceLine, selectionsLine).Proceed?
    ensures |Resolve(manifest, choiceLine, selectionsLine).entries| == |numbers|
    ensures forall j :: 0 <= j < |numbers| ==>
      Resolve(manifest, choiceLine, selectionsLine).entries[j] == manifest[numbers[j] - 1]
  {
    var tokens := Tokens(selectionsLine);
    ConvertedTokens(tokens, numbers);
    var indices := TokenIndices(tokens).value;
    PickInRange(manifest, indices);
    var picked := Pick(manifest, indices).value;
    assert Resolve(manifest, choiceLine, selectionsLine) == Proceed(picked);
    forall j | 0 <= j < |numbers| ensures picked[j] == manifest[numbers[j] - 1] {
      assert picked[j] == PyGet(manifest, indices[j]);
    }
  }

  /**
    A token `int()` refuses makes the step raise `ValueError`, whatever the
    other tokens are: all tokens are converted before any is used.
   */
  lemma ChooseSpecificMalformed<T>(manifest: seq<T>, choiceLine: string, selectionsLine: string, j: nat)
    requires Strip(choiceLine) == "2"
    requires j < |Tokens(selectionsLine)| && TokenNumber(Tokens(selectionsLine)[j]).None?
    ensures FirstMalformed(Tokens(selectionsLine)) <= j
    ensures Resolve(manifest, choiceLine, selectionsLine) ==
      Raised(ValueError(Strip(Tokens(selectionsLine)[FirstMalformed(Tokens(selectionsLine))])))
  {
    TokenIndicesOutcome(Tokens(selectionsLine));
  }

  /**
    A single number `k` typed at the second prompt: past the end it selects
    nothing; from `1 - len` to `len` it selects `manifest[k - 1]` with Python's
    negative indexing (so 0 is the last entry); from `-len` down it raises.
   */
  lemma ChooseSingle<T>(manifest: seq<T>, choiceLine: string, k: int)
    requires Strip(choiceLine) == "2"
    ensures Resolve(manifest, choiceLine, FormatInt(k)) ==
      if k - 1 >= |manifest| then Proceed([])
      else if k - 1 < -|manifest| then Raised(IndexError(k - 1))
      else Proceed([PyGet(manifest, k - 1)])
  {
    ParseFormat(k);
    var s := FormatInt(k);
    assert s != [] ==> !IsSpace(s[0]) && !IsSpace(s[|s| - 1]) by {
      FormatUnpadded(k);
    }
    StripUnpadded(s);
    FormatHasNoComma(k);
    SplitNoSeparator(s, ',');
    assert Tokens(s) == [s];
    StripUnpadded(s);
    assert TokenNumber(s) == Some(k);
    assert [s][0] == s && [s][1..] == [];
    assert [k - 1] + [] == [k - 1];
    assert TokenIndices([s]) == Success([k - 1]);
    assert [k - 1][1..] == [];
    assert Pick(manifest, []) == Success([]);
  }

  lemma FormatUnpadded(k: int)
    ensures FormatInt(k) != [] && !IsSpace(FormatInt(k)[0]) && !IsSpace(FormatInt(k)[|FormatInt(k)| - 1])
  {
    var a := if k < 0 then -k else k;
    FormatNatDigits(a);
    var f := FormatNat(a);
    DigitIsNotSpace(f[0]);
    DigitIsNotSpace(f[|f| - 1]);
    if k < 0 {
      assert FormatInt(k) == "-" + f;
    }
  }

  lemma FormatHasNoComma(k: int)
    ensures ',' !in FormatInt(k)
  {
    var a := if k < 0 then -k else k;
    FormatNatDigits(a);
    if k < 0 {
      assert FormatInt(k) == "-" + FormatNat(a);
    }
  }

  /** Typing "0" selects the last dataset: index -1 passes the `i < len` filter. */
  lemma ZeroSelectsLast<T>(manifest: seq<T>, choiceLine: string)
    requires Strip(choiceLine) == "2"
    requires |manifest| > 0
    ensures Resolve(manifest, choiceLine, "0") == Proceed([manifest[|manifest| - 1]])
  {
    assert FormatInt(0) == "0";
    ChooseSingle(manifest, choiceLine, 0);
  }

  /** An empty (or all-whitespace) answer at the second prompt raises `ValueError`: `''.split(',')` is `['']`. */
  lemma EmptySelectionRaises<T>(manifest: seq<T>, choiceLine: string, selectionsLine: string)
    requires Strip(choiceLine) == "2"
    requires AllSpace(selectionsLine)
    ensures Resolve(manifest, choiceLine, selectionsLine) == Raised(ValueError(""))
  {
    StripPadded(selectionsLine, [], []);
    assert selectionsLine + [] + [] == selectionsLine;
    assert Tokens(selectionsLine) == [""];
    assert Strip("") == "";
    assert TokenNumber("") == None;
  }

  lemma TokensOf311()
    ensures Tokens("3,1,1") == ["3", "1", "1"]
  {
    assert "3,1,1" == Join(["3", "1", "1"], ',');
    StripUnpadded("3,1,1");
    SplitJoin(["3", "1", "1"], ',');
  }

  lemma Numbers311()
    ensures TokenNumber("3") == Some(3) && TokenNumber("1") == Some(1)
  {
    assert FormatInt(3) == "3" && FormatInt(1) == "1";
    ParseFormat(3);
    ParseFormat(1);
    StripUnpadded("3");
    StripUnpadded("1");
  }

  /** "3,1,1" selects the third, first and first entries, in that order. */
  lemma TypedOrderAndDuplicates<T>(manifest: seq<T>, choiceLine: string, selectionsLine: string)
    requires Strip(choiceLine) == "2"
    requires selectionsLine == "3,1,1"
    requires |manifest| >= 3
    ensures Resolve(manifest, choiceLine, selectionsLine) == Proceed([manifest[2], manifest[0], manifest[0]])
  {
    TokensOf311();
    Numbers311();
    var tokens := Tokens(selectionsLine);
    var numbers := [3, 1, 1];
    forall j | 0 <= j < 3 ensures TokenNumber(tokens[j]) == Some(numbers[j]) {
      assert tokens[j] == if j == 0 then "3" else "1";
    }
    ChooseSpecificInRange(manifest, choiceLine, selectionsLine, numbers);
    var picked := Resolve(manifest, choiceLine, selectionsLine).entries;
    assert picked[0] == manifest[numbers[0] - 1] && picked[1] == manifest[numbers[1] - 1] && picked[2] == manifest[numbers[2] - 1];
    assert picked == [manifest[2], manifest[0], manifest[0]];
  }
}
