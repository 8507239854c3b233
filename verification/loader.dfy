/**
 The encoding fallback ladder of `read_csv_safely`. Decoding and CSV parsing
 are not modelled: each attempt is an opaque outcome supplied by the caller as
 a function from encoding label to result.
 */
module Loader {
  import opened Tables

  /** The encodings tried, in this order. */
  const Encodings: seq<string> := ["utf-8", "ISO-8859-1", "windows-1252"]

  /** The outcome of one `pd.read_csv` call with one encoding: a table, a
      decoding error (the only exception the ladder catches), or any other
      exception, such as a missing file or a requested column the file lacks. */
  datatype Attempt = Parsed(table: Table) | DecodeError | Raised(error: string)

  /** What `read_csv_safely` does: returns a table, returns `None`, or lets an
      exception other than a decoding error escape to its caller. */
  datatype Load = Loaded(table: Table) | Unreadable | Failed(error: string) {
    function ToOption(): Option<Table>
      requires !Failed?
    {
      if Loaded? then Some(table) else None
    }
  }

  /** The outcome of the ladder together with the encodings it tried, in order. */
  datatype Ladder = Ladder(result: Load, tried: seq<string>)

  /** Tries `encs` in order and stops at the first attempt that does not end in
      a decoding error. */
  function TryEncodings(encs: seq<string>, parse: string -> Attempt): (l: Ladder)
  {
    if encs == [] then Ladder(Unreadable, [])
    else
      match parse(encs[0])
      case Parsed(t) => Ladder(Loaded(t), [encs[0]])
      case Raised(e) => Ladder(Failed(e), [encs[0]])
      case DecodeError => Resume([encs[0]], TryEncodings(encs[1..], parse))
  }

  /** The ladder tries a prefix of the list, every attempt but the last raised a
      decoding error, the last attempt decides the result, and `None` comes back
      exactly when every encoding raised a decoding error. */
  lemma {:induction false} FirstDecodableWins(encs: seq<string>, parse: string -> Attempt)
    ensures var l := TryEncodings(encs, parse);
      && |l.tried| <= |encs| && l.tried == encs[..|l.tried|]
      && (forall i :: 0 <= i < |l.tried| - 1 ==> parse(encs[i]).DecodeError?)
      && (l.result.Unreadable? <==> forall i :: 0 <= i < |encs| ==> parse(encs[i]).DecodeError?)
      && (l.result.Unreadable? ==> l.tried == encs)
      && (l.result.Loaded? ==>
            |l.tried| > 0 && parse(encs[|l.tried| - 1]) == Parsed(l.result.table))
      && (l.result.Failed? ==>
            |l.tried| > 0 && parse(encs[|l.tried| - 1]) == Raised(l.result.error))
  {
    if encs != [] && parse(encs[0]).DecodeError? {
      FirstDecodableWins(encs[1..], parse);
      ShiftLadder(encs, parse, TryEncodings(encs[1..], parse));
    }
  }

  /** One step of the ladder: a decoding error on the first encoding hands
      over to the remaining ones. */
  lemma ShiftLadder(encs: seq<string>, parse: string -> Attempt, rest: Ladder)
    requires encs != [] && parse(encs[0]).DecodeError?
    requires |rest.tried| <= |encs| - 1 && rest.tried == encs[1..][..|rest.tried|]
    requires forall i :: 0 <= i < |rest.tried| - 1 ==> parse(encs[1..][i]).DecodeError?
    requires rest.result.Unreadable? <==> forall i :: 0 <= i < |encs| - 1 ==> parse(encs[1..][i]).DecodeError?
    ensures var tried := [encs[0]] + rest.tried;
      && tried == encs[..|tried|]
      && (forall i :: 0 <= i < |tried| - 1 ==> parse(encs[i]).DecodeError?)
      && (rest.result.Unreadable? <==> forall i :: 0 <= i < |encs| ==> parse(encs[i]).DecodeError?)
  {
    var tried := [encs[0]] + rest.tried;
    assert tried == encs[..|tried|];
    forall i | 0 <= i < |tried| - 1 ensures parse(encs[i]).DecodeError? {
      if i > 0 {
        assert encs[i] == encs[1..][i - 1];
      }
    }
    if forall i :: 0 <= i < |encs| - 1 ==> parse(encs[1..][i]).DecodeError? {
      forall i | 0 <= i < |encs| ensures parse(encs[i]).DecodeError? {
        if i > 0 {
          assert encs[i] == encs[1..][i - 1];
        }
      }
    }
  }

  /** `read_csv_safely`: the ladder over the fixed encoding list. */
  method ReadCsvSafely(parse: string -> Attempt) returns (r: Load, ghost tried: seq<string>)
    ensures r == TryEncodings(Encodings, parse).result
    ensures Ladder(r, tried) == TryEncodings(Encodings, parse)
  {
    r, tried := TryInOrder(Encodings, parse);
  }

  /** The `for enc in encodings` loop: one attempt per encoding, returning at
      the first attempt that does not raise a decoding error. */
  method TryInOrder(encodings: seq<string>, parse: string -> Attempt) returns (r: Load, ghost tried: seq<string>)
    ensures r == TryEncodings(encodings, parse).result
    ensures Ladder(r, tried) == TryEncodings(encodings, parse)
  {
    tried := [];
    var i := 0;
    while i < |encodings|
      invariant 0 <= i <= |encodings|
      invariant tried == encodings[..i]
      invariant TryEncodings(encodings, parse) == Resume(tried, TryEncodings(encodings[i..], parse))
    {
      var enc := encodings[i];
      LadderStep(encodings[i..], parse);
      assert encodings[i..][1..] == encodings[i + 1..];
      ghost var before := tried;
      tried := tried + [enc];
      match parse(enc) {
        case Parsed(t) =>
          r := Loaded(t);
          return;
        case Raised(e) =>
          r := Failed(e);
          return;
        case DecodeError =>
      }
      ghost var rest := TryEncodings(encodings[i + 1..], parse);
      assert before + ([enc] + rest.tried) == tried + rest.tried;
      i := i + 1;
    }
    r := Unreadable;
  }

  /** A ladder run continued after the encodings `before` all failed to decode. */
  function Resume(before: seq<string>, l: Ladder): Ladder
  {
    Ladder(l.result, before + l.tried)
  }

  /** One unfolding of the ladder on a non-empty list. */
  lemma LadderStep(encs: seq<string>, parse: string -> Attempt)
    requires encs != []
    ensures TryEncodings(encs, parse) ==
      match parse(encs[0])
      case Parsed(t) => Ladder(Loaded(t), [encs[0]])
      case Raised(e) => Ladder(Failed(e), [encs[0]])
      case DecodeError => Resume([encs[0]], TryEncodings(encs[1..], parse))
  {
  }

  /** At most one attempt per encoding, in list order, and the first attempt
      that does not raise a decoding error decides the result. */
  lemma LadderBounded(parse: string -> Attempt)
    ensures var l := TryEncodings(Encodings, parse);
      && 1 <= |l.tried| <= 3
      && l.tried[0] == "utf-8"
      && (|l.tried| >= 2 ==> l.tried[1] == "ISO-8859-1")
      && (|l.tried| == 3 ==> l.tried[2] == "windows-1252")
  {
  }

  /** A file that only the second encoding decodes is loaded on the second
      attempt, with the table that attempt parsed. */
  lemma SecondEncodingFallback(parse: string -> Attempt, t: Table)
    requires parse("utf-8") == DecodeError
    requires parse("ISO-8859-1") == Parsed(t)
    ensures TryEncodings(Encodings, parse) == Ladder(Loaded(t), ["utf-8", "ISO-8859-1"])
  {
    assert Encodings[1..][1..] == ["windows-1252"];
  }
}
