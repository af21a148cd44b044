/** What the loop of `parse_list_of_elements` computes, as functions over the input
    elements: which parsed elements it keeps, which messages it logs, and where a
    non-recoverable exception stops it. Two independent reference definitions
    (`Successes`, `FailureMessages`) describe the same result element by element. */
module ElementCollection {
  import opened PythonValues
  import opened Exceptions

  /** The loop's state after a prefix of the elements: the parsed list, the messages
      logged so far, and the exception that left the loop, if one did. */
  datatype Collection<T> = Collection(parsed: seq<T>, log: seq<string>, escaped: Option<Exception>)

  /** The loop over `elements`, one `append_parsed_field_or_log_error` per element,
      written as a recursion on the prefix already processed. */
  function Collect<T>(elements: seq<Value>, parse: Value -> Raised<T>): (c: Collection<T>)
    ensures |c.parsed| <= |elements|
    ensures c.escaped.Some? ==> !Recoverable(c.escaped.value)
    decreases |elements|
  {
    if elements == [] then Collection([], [], None)
    else
      var c := Collect(elements[..|elements| - 1], parse);
      if c.escaped.Some? then c
      else
        match parse(elements[|elements| - 1])
        case Returned(x) => Collection(c.parsed + [x], c.log, None)
        case Raise(e) =>
          if Recoverable(e) then Collection(c.parsed, c.log + CaughtMessages(e), None)
          else Collection(c.parsed, c.log, Some(e))
  }

  /** No element raises an exception that the loop does not catch. */
  predicate NoneEscapes<T>(elements: seq<Value>, parse: Value -> Raised<T>) {
    forall i :: 0 <= i < |elements| ==> !Escapes(parse(elements[i]))
  }

  /** Reference definition: the parsed values of the elements that parse, in input order. */
  function Successes<T>(elements: seq<Value>, parse: Value -> Raised<T>): seq<T> {
    if elements == [] then []
    else
      (match parse(elements[0]) case Returned(x) => [x] case Raise(_) => [])
      + Successes(elements[1..], parse)
  }

  /** Reference definition: every failing element's messages, in input order. */
  function FailureMessages<T>(elements: seq<Value>, parse: Value -> Raised<T>): seq<string> {
    if elements == [] then []
    else
      (var o := parse(elements[0]); if Failed(o) then CaughtMessages(o.error) else [])
      + FailureMessages(elements[1..], parse)
  }

  /** The number of elements whose parse fails recoverably. */
  function FailureCount<T>(elements: seq<Value>, parse: Value -> Raised<T>): nat {
    if elements == [] then 0
    else (if Failed(parse(elements[0])) then 1 else 0) + FailureCount(elements[1..], parse)
  }

  /** `parse_list_of_elements` once its loop is done: a non-recoverable exception
      propagates; otherwise the whole log (`prior` entries of a supplied logger, then
      this loop's) becomes one SPDXParsingError when non-empty; otherwise the parsed
      list is returned. */
  function ListParse<T>(prior: seq<string>, elements: seq<Value>, parse: Value -> Raised<T>): (r: Raised<seq<T>>)
    ensures r.Returned? ==>
              && prior + Collect(elements, parse).log == []
              && Collect(elements, parse).escaped == None
              && |r.value| <= |elements|
    ensures r.Raise? && Recoverable(r.error) ==>
              r.error.SpdxParsingError? && r.error.messages != [] && prior <= r.error.messages
  {
    var c := Collect(elements, parse);
    if c.escaped.Some? then Raise(c.escaped.value)
    else if prior + c.log != [] then Raise(SpdxParsingError(prior + c.log))
    else Returned(c.parsed)
  }

  lemma {:induction false} SuccessesAppend<T>(a: seq<Value>, b: seq<Value>, parse: Value -> Raised<T>)
    ensures Successes(a + b, parse) == Successes(a, parse) + Successes(b, parse)
    decreases |a|
  {
    if a != [] {
      assert (a + b)[1..] == a[1..] + b;
      SuccessesAppend(a[1..], b, parse);
    } else {
      assert a + b == b;
    }
  }

  lemma {:induction false} FailureMessagesAppend<T>(a: seq<Value>, b: seq<Value>, parse: Value -> Raised<T>)
    ensures FailureMessages(a + b, parse) == FailureMessages(a, parse) + FailureMessages(b, parse)
    decreases |a|
  {
    if a != [] {
      assert (a + b)[1..] == a[1..] + b;
      FailureMessagesAppend(a[1..], b, parse);
    } else {
      assert a + b == b;
    }
  }

  /** When nothing escapes, the loop keeps exactly the successfully parsed elements
      in input order (a failed element is skipped, not replaced) and logs exactly the
      failing elements' messages in input order (no failure is lost). */
  lemma {:induction false} CollectMatchesReference<T>(elements: seq<Value>, parse: Value -> Raised<T>)
    requires NoneEscapes(elements, parse)
    ensures Collect(elements, parse)
            == Collection(Successes(elements, parse), FailureMessages(elements, parse), None)
    decreases |elements|
  {
    if elements != [] {
      var init, last := elements[..|elements| - 1], elements[|elements| - 1];
      assert elements == init + [last];
      assert NoneEscapes(init, parse) by {
        forall i | 0 <= i < |init| ensures !Escapes(parse(init[i])) {
          assert init[i] == elements[i];
        }
      }
      CollectMatchesReference(init, parse);
      SuccessesAppend(init, [last], parse);
      FailureMessagesAppend(init, [last], parse);
      assert [last][1..] == [];
      assert !Escapes(parse(elements[|elements| - 1]));
    }
  }

  /** Once an exception has left the loop, the later elements are never looked at. */
  lemma {:induction false} CollectAfterEscape<T>(elements: seq<Value>, parse: Value -> Raised<T>, k: nat)
    requires k <= |elements|
    requires Collect(elements[..k], parse).escaped.Some?
    ensures Collect(elements, parse) == Collect(elements[..k], parse)
    decreases |elements| - k
  {
    if k == |elements| {
      assert elements[..k] == elements;
    } else {
      assert elements[..k + 1][..k] == elements[..k];
      CollectAfterEscape(elements, parse, k + 1);
    }
  }

  /** A non-recoverable exception at element `k` propagates from the loop unchanged;
      the elements before it have been parsed and logged as usual. */
  lemma {:induction false} CollectStopsAtFirstEscape<T>(elements: seq<Value>, parse: Value -> Raised<T>, k: nat)
    requires k < |elements|
    requires NoneEscapes(elements[..k], parse) && Escapes(parse(elements[k]))
    ensures Collect(elements, parse)
            == Collection(Successes(elements[..k], parse), FailureMessages(elements[..k], parse),
                          Some(parse(elements[k]).error))
  {
    CollectMatchesReference(elements[..k], parse);
    assert elements[..k + 1][..k] == elements[..k];
    assert elements[..k + 1][k] == elements[k];
    CollectAfterEscape(elements, parse, k + 1);
  }

  /** When nothing escapes, every element is either kept or counted as a failure. */
  lemma {:induction false} SuccessesAndFailuresPartition<T>(elements: seq<Value>, parse: Value -> Raised<T>)
    requires NoneEscapes(elements, parse)
    ensures |Successes(elements, parse)| + FailureCount(elements, parse) == |elements|
    decreases |elements|
  {
    if elements != [] {
      assert NoneEscapes(elements[1..], parse) by {
        forall i | 0 <= i < |elements[1..]| ensures !Escapes(parse(elements[1..][i])) {
          assert elements[1..][i] == elements[i + 1];
        }
      }
      assert !Escapes(parse(elements[0]));
      SuccessesAndFailuresPartition(elements[1..], parse);
    }
  }

  /** When every failure carries one message, the log holds exactly one message per
      failing element, never fewer. */
  lemma {:induction false} OneMessagePerFailure<T>(elements: seq<Value>, parse: Value -> Raised<T>)
    requires forall i :: 0 <= i < |elements| && Failed(parse(elements[i])) ==>
               |CaughtMessages(parse(elements[i]).error)| == 1
    ensures |FailureMessages(elements, parse)| == FailureCount(elements, parse)
    decreases |elements|
  {
    if elements != [] {
      assert Failed(parse(elements[0])) ==> |CaughtMessages(parse(elements[0]).error)| == 1;
      forall i | 0 <= i < |elements[1..]| && Failed(parse(elements[1..][i]))
        ensures |CaughtMessages(parse(elements[1..][i]).error)| == 1
      {
        assert elements[1..][i] == elements[i + 1];
      }
      OneMessagePerFailure(elements[1..], parse);
    }
  }

  /** The messages of the failing element at position `k` sit in the log between those
      of the failures before it and those of the failures after it. */
  lemma FailureOfElementLogged<T>(elements: seq<Value>, parse: Value -> Raised<T>, k: nat)
    requires k < |elements| && Failed(parse(elements[k]))
    ensures FailureMessages(elements, parse)
            == FailureMessages(elements[..k], parse) + CaughtMessages(parse(elements[k]).error)
               + FailureMessages(elements[k + 1..], parse)
  {
    var before, rest := elements[..k], elements[k + 1..];
    assert elements == before + [elements[k]] + rest;
    FailureMessagesAround(before, elements[k], rest, parse);
  }

  lemma FailureMessagesAround<T>(before: seq<Value>, x: Value, rest: seq<Value>, parse: Value -> Raised<T>)
    requires Failed(parse(x))
    ensures FailureMessages(before + [x] + rest, parse)
            == FailureMessages(before, parse) + CaughtMessages(parse(x).error) + FailureMessages(rest, parse)
  {
    assert before + [x] + rest == before + ([x] + rest);
    FailureMessagesAppend(before, [x] + rest, parse);
    assert ([x] + rest)[0] == x && ([x] + rest)[1..] == rest;
  }

  /** If every element parses, the reference result is every parsed value, in order,
      and nothing is logged. */
  lemma {:induction false} AllParsedReference<T>(elements: seq<Value>, parse: Value -> Raised<T>)
    requires forall i :: 0 <= i < |elements| ==> parse(elements[i]).Returned?
    ensures FailureMessages(elements, parse) == []
    ensures |Successes(elements, parse)| == |elements|
    ensures forall i :: 0 <= i < |elements| ==> Successes(elements, parse)[i] == parse(elements[i]).value
    decreases |elements|
  {
    if elements != [] {
      forall i | 0 <= i < |elements[1..]| ensures parse(elements[1..][i]).Returned? {
        assert elements[1..][i] == elements[i + 1];
      }
      assert parse(elements[0]).Returned?;
      AllParsedReference(elements[1..], parse);
      forall i | 0 <= i < |elements| ensures Successes(elements, parse)[i] == parse(elements[i]).value {
        if i > 0 {
          assert elements[1..][i - 1] == elements[i];
        }
      }
    }
  }

  /** Collect-then-raise: with a fresh logger and nothing escaping, the list parse
      returns every parsed element when no failure logged a message, and otherwise
      raises ONE SPDXParsingError holding every failing element's messages in input
      order. */
  lemma ListParseCollectsEveryFailure<T>(elements: seq<Value>, parse: Value -> Raised<T>)
    requires NoneEscapes(elements, parse)
    ensures ListParse([], elements, parse)
            == if FailureMessages(elements, parse) == [] then Returned(Successes(elements, parse))
               else Raise(SpdxParsingError(FailureMessages(elements, parse)))
  {
    CollectMatchesReference(elements, parse);
  }

  /** A list whose N elements all parse yields all N parsed elements, in input order. */
  lemma ListParseAllValid<T>(elements: seq<Value>, parse: Value -> Raised<T>)
    requires forall i :: 0 <= i < |elements| ==> parse(elements[i]).Returned?
    ensures ListParse([], elements, parse).Returned?
    ensures |ListParse([], elements, parse).value| == |elements|
    ensures forall i :: 0 <= i < |elements| ==>
              ListParse([], elements, parse).value[i] == parse(elements[i]).value
  {
    AllParsedReference(elements, parse);
    ListParseCollectsEveryFailure(elements, parse);
  }

  /** If K > 0 elements fail with one message each, the list parse raises one
      SPDXParsingError with exactly K messages, and N - K elements had parsed. */
  lemma ListParseReportsEveryFailedElement<T>(elements: seq<Value>, parse: Value -> Raised<T>)
    requires NoneEscapes(elements, parse)
    requires forall i :: 0 <= i < |elements| && Failed(parse(elements[i])) ==>
               |CaughtMessages(parse(elements[i]).error)| == 1
    requires FailureCount(elements, parse) > 0
    ensures ListParse([], elements, parse).Raise?
    ensures ListParse([], elements, parse).error.SpdxParsingError?
    ensures |ListParse([], elements, parse).error.messages| == FailureCount(elements, parse)
    ensures |Successes(elements, parse)| == |elements| - FailureCount(elements, parse)
  {
    OneMessagePerFailure(elements, parse);
    SuccessesAndFailuresPartition(elements, parse);
    ListParseCollectsEveryFailure(elements, parse);
  }
}
