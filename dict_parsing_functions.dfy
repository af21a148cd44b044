/** The error-tolerant helpers used when turning a decoded JSON/YAML-like dictionary
    into SPDX model objects: each field and each list element is parsed on its own,
    failures are logged instead of raised, and a non-empty log becomes one
    SPDXParsingError at the boundary of the object or list being parsed. */
module DictParsingFunctions {
  import opened PythonValues
  import opened Exceptions
  import opened Logging
  import opened ElementCollection

  // ---------------------------------------------------------------------------
  // json_str_to_enum_name

  /** `str.upper()` on one character, restricted to ASCII letters. */
  function UpperChar(c: char): char {
    if 'a' <= c <= 'z' then (c as int - 'a' as int + 'A' as int) as char else c
  }

  function Upper(s: string): string {
    seq(|s|, i requires 0 <= i < |s| => UpperChar(s[i]))
  }

  /** `s.replace("-", "_")`. */
  function ReplaceHyphens(s: string): string {
    seq(|s|, i requires 0 <= i < |s| => if s[i] == '-' then '_' else s[i])
  }

  /** Turns an enum token of the document into the name of the enum member: a
      non-string is refused with a parsing error naming its type; a string has each
      `-` replaced by `_` and is upper-cased, character by character. */
  function JsonStrToEnumName(jsonStr: Value): (r: Raised<string>)
    ensures !jsonStr.Str? ==>
              r == Raise(SpdxParsingError(["Type for enum must be str not " + TypeName(jsonStr)]))
    ensures jsonStr.Str? ==> r.Returned? && |r.value| == |jsonStr.s|
    ensures jsonStr.Str? ==> forall i :: 0 <= i < |jsonStr.s| ==>
              r.value[i] == UpperChar(if jsonStr.s[i] == '-' then '_' else jsonStr.s[i])
    ensures r.Returned? ==> '-' !in r.value && forall c :: c in r.value ==> !('a' <= c <= 'z')
  {
    if !jsonStr.Str? then
      Raise(SpdxParsingError(["Type for enum must be str not " + TypeName(jsonStr)]))
    else
      Returned(Upper(ReplaceHyphens(jsonStr.s)))
  }

  /** An enum name is already normalised: normalising it again changes nothing. */
  lemma EnumNameIsNormalised(token: string)
    ensures var r := JsonStrToEnumName(Str(token));
            JsonStrToEnumName(Str(r.value)) == r
  {
    var name := JsonStrToEnumName(Str(token)).value;
    var again := Upper(ReplaceHyphens(name));
    assert |again| == |name|;
    forall i | 0 <= i < |name| ensures again[i] == name[i] {
      assert name[i] != '-';
      assert name[i] == UpperChar(if token[i] == '-' then '_' else token[i]);
    }
    assert again == name;
  }

  // ---------------------------------------------------------------------------
  // construct_or_raise_parsing_error

  /** A domain class: its `__name__` and its constructor applied to keyword arguments. */
  datatype Constructor<!A, T> = Constructor(name: string, construct: A -> Raised<T>)

  /** Calls the constructor; its ConstructorTypeErrors becomes one SPDXParsingError
      message naming the class, every other outcome passes through untouched, so no
      ConstructorTypeErrors ever leaves this boundary. */
  function ConstructOrRaiseParsingError<A, T>(objectToConstruct: Constructor<A, T>, argsForConstruction: A): (r: Raised<T>)
    ensures objectToConstruct.construct(argsForConstruction).Returned? ==>
              r == objectToConstruct.construct(argsForConstruction)
    ensures var o := objectToConstruct.construct(argsForConstruction);
            o.Raise? && o.error.ConstructorTypeErrors? ==>
              r == Raise(SpdxParsingError(["Error while constructing " + objectToConstruct.name + ": "
                                           + ListRepr(o.error.messages)]))
    ensures var o := objectToConstruct.construct(argsForConstruction);
            o.Raise? && !o.error.ConstructorTypeErrors? ==> r == o
    ensures !(r.Raise? && r.error.ConstructorTypeErrors?)
  {
    match objectToConstruct.construct(argsForConstruction)
    case Raise(ConstructorTypeErrors(messages)) =>
      Raise(SpdxParsingError(["Error while constructing " + objectToConstruct.name + ": " + ListRepr(messages)]))
    case other => other
  }

  // ---------------------------------------------------------------------------
  // raise_parsing_error_if_logger_has_messages

  /** Python's truthiness of the optional `parsed_object_name`. */
  predicate NameGiven(parsedObjectName: Option<string>) {
    parsedObjectName.Some? && parsedObjectName.value != ""
  }

  /** The boundary check: an empty log never raises, a non-empty log always raises one
      SPDXParsingError; with a name it is the single message naming the object and
      quoting the log, without one it is the log's messages verbatim and in order. */
  function RaiseParsingErrorIfLoggerHasMessages(logger: Logger, parsedObjectName: Option<string>): (r: Raised<()>)
    reads logger
    ensures r.Returned? <==> logger.messages == []
    ensures r.Raise? ==> r.error.SpdxParsingError? && r.error.messages != []
    ensures r.Raise? && NameGiven(parsedObjectName) ==>
              r.error.messages == ["Error while parsing " + parsedObjectName.value + ": " + ListRepr(logger.messages)]
    ensures r.Raise? && !NameGiven(parsedObjectName) ==> r.error.messages == logger.messages
  {
    if logger.HasMessages() then
      if NameGiven(parsedObjectName) then
        Raise(SpdxParsingError(["Error while parsing " + parsedObjectName.value + ": "
                                + ListRepr(logger.GetMessages())]))
      else
        Raise(SpdxParsingError(logger.GetMessages()))
    else
      Returned(())
  }

  // ---------------------------------------------------------------------------
  // parse_field_or_no_assertion_or_none, parse_field_or_no_assertion

  /** `SpdxNoAssertion().__str__()` and `SpdxNone().__str__()`. */
  const NoAssertionToken: string := "NOASSERTION"
  const NoneToken: string := "NONE"

  /** What a sentinel resolver returns: one of the two sentinels, or the method's result. */
  datatype Resolved<T> = SpdxNoAssertion | SpdxNone | FromMethod(value: T)

  /** The method's outcome, its value wrapped as `FromMethod`. */
  function FromMethodOutcome<T>(o: Raised<T>): Raised<Resolved<T>> {
    match o
    case Returned(x) => Returned(FromMethod(x))
    case Raise(e) => Raise(e)
  }

  /** The identity parsing method, the default `lambda x: x`. */
  function Identity(v: Value): Raised<Value> {
    Returned(v)
  }

  /** A field equal to the no-assertion token is SpdxNoAssertion and one equal to the
      none token is SpdxNone, without calling the method; every other value, of any
      type, is handed to the method. The comparison is on the value itself, so only
      a string can match. */
  function ParseFieldOrNoAssertionOrNone<T>(field: Value, methodForField: Value -> Raised<T>): (r: Raised<Resolved<T>>)
    ensures field == Str(NoAssertionToken) ==> r == Returned(SpdxNoAssertion)
    ensures field == Str(NoneToken) ==> r == Returned(SpdxNone)
    ensures field != Str(NoAssertionToken) && field != Str(NoneToken) ==>
              r == FromMethodOutcome(methodForField(field))
    ensures r.Returned? && !r.value.FromMethod? ==> field.Str? && field.s in {NoAssertionToken, NoneToken}
  {
    if field == Str(NoAssertionToken) then Returned(SpdxNoAssertion)
    else if field == Str(NoneToken) then Returned(SpdxNone)
    else FromMethodOutcome(methodForField(field))
  }

  /** Like `ParseFieldOrNoAssertionOrNone`, except that the none token is not
      recognised: it goes to the method like every other value. */
  function ParseFieldOrNoAssertion<T>(field: Value, methodForField: Value -> Raised<T>): (r: Raised<Resolved<T>>)
    ensures field == Str(NoAssertionToken) ==> r == Returned(SpdxNoAssertion)
    ensures field != Str(NoAssertionToken) ==> r == FromMethodOutcome(methodForField(field))
    ensures field != Str(NoneToken) ==> r == ParseFieldOrNoAssertionOrNone(field, methodForField)
    ensures field == Str(NoneToken) ==> r != ParseFieldOrNoAssertionOrNone(field, methodForField)
  {
    if field == Str(NoAssertionToken) then Returned(SpdxNoAssertion)
    else FromMethodOutcome(methodForField(field))
  }

  /** With the default method, a string other than the two tokens is returned as it is. */
  lemma DefaultMethodReturnsFieldUnchanged(s: string)
    requires s != NoAssertionToken && s != NoneToken
    ensures ParseFieldOrNoAssertion(Str(s), Identity) == Returned(FromMethod(Str(s)))
    ensures ParseFieldOrNoAssertionOrNone(Str(s), Identity) == Returned(FromMethod(Str(s)))
  {
  }

  // ---------------------------------------------------------------------------
  // parse_list_of_elements, append_parsed_field_or_log_error

  /** Parses one element: on success the same list object comes back with the parsed
      value appended and the log untouched; on a parsing, type or value error the list
      is untouched and the log gains that error's messages; any other exception
      propagates and changes nothing. */
  method AppendParsedFieldOrLogError<T>(logger: Logger, listToAppendTo: MutableList<T>, field: Value,
                                        methodToParse: Value -> Raised<T>)
    returns (r: Raised<MutableList<T>>)
    modifies logger, listToAppendTo
    ensures match methodToParse(field)
            case Returned(x) =>
              && r == Returned(listToAppendTo)
              && listToAppendTo.items == old(listToAppendTo.items) + [x]
              && logger.messages == old(logger.messages)
            case Raise(e) =>
              && listToAppendTo.items == old(listToAppendTo.items)
              && (if Recoverable(e) then
                    r == Returned(listToAppendTo) && logger.messages == old(logger.messages) + CaughtMessages(e)
                  else
                    r == Raise(e) && logger.messages == old(logger.messages))
  {
    var parsedElement := methodToParse(field);
    match parsedElement
    case Returned(x) =>
      listToAppendTo.Append(x);
      r := Returned(listToAppendTo);
    case Raise(e) =>
      if Recoverable(e) {
        logger.Extend(CaughtMessages(e));
        r := Returned(listToAppendTo);
      } else {
        r := Raise(e);
      }
  }

  /** Parses every element into a fresh list, logging the failures in a fresh logger
      (or the one supplied), then raises the whole log as one SPDXParsingError if it is
      non-empty. The outcome is `ListParse`; a supplied logger ends holding its earlier
      entries followed by the loop's. */
  method ParseListOfElements<T>(listOfElements: seq<Value>, methodToParseElement: Value -> Raised<T>,
                                logger: Logger?)
    returns (r: Raised<MutableList<T>>)
    modifies logger
    ensures var prior := if logger == null then [] else old(logger.messages);
            match ListParse(prior, listOfElements, methodToParseElement)
            case Raise(e) => r == Raise(e)
            case Returned(xs) => r.Returned? && fresh(r.value) && r.value.items == xs
    ensures logger != null ==>
              logger.messages == old(logger.messages) + Collect(listOfElements, methodToParseElement).log
  {
    ghost var prior := if logger == null then [] else logger.messages;
    var log: Logger;
    if logger == null {
      log := new Logger();
    } else {
      log := logger;
    }
    var parsedElements := new MutableList<T>();
    var i := 0;
    while i < |listOfElements|
      invariant 0 <= i <= |listOfElements|
      invariant logger != null ==> log == logger
      invariant logger == null ==> fresh(log)
      invariant fresh(parsedElements)
      invariant Collect(listOfElements[..i], methodToParseElement).escaped == None
      invariant parsedElements.items == Collect(listOfElements[..i], methodToParseElement).parsed
      invariant log.messages == prior + Collect(listOfElements[..i], methodToParseElement).log
    {
      assert listOfElements[..i + 1][..i] == listOfElements[..i];
      assert listOfElements[..i + 1][i] == listOfElements[i];
      var appended := AppendParsedFieldOrLogError(log, parsedElements, listOfElements[i], methodToParseElement);
      if appended.Raise? {
        CollectAfterEscape(listOfElements, methodToParseElement, i + 1);
        return appended;
      }
      parsedElements := appended.value;
      i := i + 1;
    }
    assert listOfElements[..i] == listOfElements;
    var check := RaiseParsingErrorIfLoggerHasMessages(log, None);
    if check.Raise? {
      return Raise(check.error);
    }
    return Returned(parsedElements);
  }

  // ---------------------------------------------------------------------------
  // parse_field_or_log_error

  /** What `parse_field_or_log_error` returns: the caller's default, a parsed value, or
      (for a list field) the list object `parse_list_of_elements` built. */
  datatype FieldResult<T> = NoValue | Parsed(value: T) | ParsedList(list: MutableList<T>)

  /** The same outcome as a value: the default, a parsed value, or the parsed list's contents. */
  datatype ParsedField<T> = UseDefault | Scalar(value: T) | Elements(values: seq<T>)

  /** The outcome of one field parse and the messages it adds to the caller's log. */
  datatype FieldOutcome<T> = FieldOutcome(result: Raised<ParsedField<T>>, logged: seq<string>)

  /** What parsing one field does. A falsy field yields the default and logs nothing,
      whatever the method. Otherwise the method is applied to the field, or, for a
      list field, the list parse is applied to its elements with a fresh logger;
      a parsing, type or value error is logged and yields the default; any other
      exception propagates and logs nothing. */
  function FieldParse<T>(field: Value, parsingMethod: Value -> Raised<T>, fieldIsList: bool): (o: FieldOutcome<T>)
    ensures Falsy(field) ==> o == FieldOutcome(Returned(UseDefault), [])
    ensures o.result.Raise? ==> !Recoverable(o.result.error) && o.logged == []
    ensures o.logged != [] ==> o.result == Returned(UseDefault)
    ensures !Falsy(field) && !fieldIsList && parsingMethod(field).Returned? ==>
              o == FieldOutcome(Returned(Scalar(parsingMethod(field).value)), [])
    ensures !Falsy(field) && !fieldIsList && Failed(parsingMethod(field)) ==>
              o == FieldOutcome(Returned(UseDefault), CaughtMessages(parsingMethod(field).error))
    ensures o.result.Returned? && o.result.value.Elements? ==>
              fieldIsList && Iterate(field).Returned? && |o.result.value.values| <= |Iterate(field).value|
    ensures !Falsy(field) && fieldIsList && Iterate(field).Raise? ==>
              o == FieldOutcome(Returned(UseDefault), CaughtMessages(Iterate(field).error))
    ensures !Falsy(field) && fieldIsList && Iterate(field).Returned? ==>
              var l := ListParse([], Iterate(field).value, parsingMethod);
              && (l.Returned? ==> o == FieldOutcome(Returned(Elements(l.value)), []))
              && (Failed(l) ==> o == FieldOutcome(Returned(UseDefault), l.error.messages))
              && (Escapes(l) ==> o == FieldOutcome(Raise(l.error), []))
  {
    if Falsy(field) then FieldOutcome(Returned(UseDefault), [])
    else
      var attempt: Raised<ParsedField<T>> :=
        if fieldIsList then
          match Iterate(field)
          case Raise(e) => Raise(e)
          case Returned(elements) =>
            match ListParse([], elements, parsingMethod)
            case Returned(xs) => Returned(Elements(xs))
            case Raise(e) => Raise(e)
        else
          match parsingMethod(field)
          case Returned(x) => Returned(Scalar(x))
          case Raise(e) => Raise(e);
      if attempt.Raise? && Recoverable(attempt.error) then
        FieldOutcome(Returned(UseDefault), CaughtMessages(attempt.error))
      else
        FieldOutcome(attempt, [])
  }

  /** Parses one field, logging a parsing, type or value error in the caller's log and
      returning `default` instead of raising. The log gains exactly the messages
      `FieldParse` says and the result is the one it says. */
  method ParseFieldOrLogError<T>(logger: Logger, field: Value, parsingMethod: Value -> Raised<T>,
                                 default: FieldResult<T>, fieldIsList: bool)
    returns (r: Raised<FieldResult<T>>)
    modifies logger
    ensures var o := FieldParse(field, parsingMethod, fieldIsList);
            && logger.messages == old(logger.messages) + o.logged
            && match o.result
               case Raise(e) => r == Raise(e)
               case Returned(UseDefault) => r == Returned(default)
               case Returned(Scalar(x)) => r == Returned(Parsed(x))
               case Returned(Elements(xs)) =>
                 r.Returned? && r.value.ParsedList? && fresh(r.value.list) && r.value.list.items == xs
  {
    if Falsy(field) {
      return Returned(default);
    }
    var attempt: Raised<FieldResult<T>>;
    if fieldIsList {
      var elements := Iterate(field);
      if elements.Raise? {
        attempt := Raise(elements.error);
      } else {
        var parsedList := ParseListOfElements(elements.value, parsingMethod, null);
        attempt := if parsedList.Returned? then Returned(ParsedList(parsedList.value)) else Raise(parsedList.error);
      }
    } else {
      attempt := match parsingMethod(field)
        case Returned(x) => Returned(Parsed(x))
        case Raise(e) => Raise(e);
    }
    if attempt.Raise? && Recoverable(attempt.error) {
      logger.Extend(CaughtMessages(attempt.error));
      return Returned(default);
    }
    return attempt;
  }

  /** A list field whose elements raise nothing uncaught: if no failure logged a
      message, the field is the list of every parsed element in input order; otherwise
      it is the default, not a partial list, and the caller's log gains every failing
      element's messages in input order. */
  lemma ListFieldAllOrDefault<T>(items: seq<Value>, parsingMethod: Value -> Raised<T>)
    requires items != [] && NoneEscapes(items, parsingMethod)
    ensures FieldParse(List(items), parsingMethod, true)
            == if FailureMessages(items, parsingMethod) == [] then
                 FieldOutcome(Returned(Elements(Successes(items, parsingMethod))), [])
               else
                 FieldOutcome(Returned(UseDefault), FailureMessages(items, parsingMethod))
  {
    ListParseCollectsEveryFailure(items, parsingMethod);
  }

  /** A non-empty list field whose elements all parse yields every parsed element. */
  lemma ListFieldAllParsed<T>(items: seq<Value>, parsingMethod: Value -> Raised<T>)
    requires items != []
    requires forall i :: 0 <= i < |items| ==> parsingMethod(items[i]).Returned?
    ensures var o := FieldParse(List(items), parsingMethod, true);
            && o.logged == []
            && o.result.Returned? && o.result.value.Elements?
            && |o.result.value.values| == |items|
            && forall i :: 0 <= i < |items| ==> o.result.value.values[i] == parsingMethod(items[i]).value
  {
    ListParseAllValid(items, parsingMethod);
  }

  // ---------------------------------------------------------------------------
  // delete_duplicates_from_list

  predicate NoDuplicates<T(==)>(s: seq<T>) {
    forall i, j :: 0 <= i < j < |s| ==> s[i] != s[j]
  }

  /** The position of the first occurrence of `x` in `xs`. */
  function FirstIndex<T(==)>(xs: seq<T>, x: T): (k: nat)
    requires x in xs
    ensures k < |xs| && xs[k] == x && x !in xs[..k]
  {
    if xs[0] == x then 0
    else
      var k := FirstIndex(xs[1..], x);
      assert xs[..k + 1] == [xs[0]] + xs[1..][..k];
      k + 1
  }

  lemma FirstIndexUnique<T>(xs: seq<T>, x: T, k: nat)
    requires k < |xs| && xs[k] == x && x !in xs[..k]
    ensures FirstIndex(xs, x) == k
  {
  }

  /** `list(dict.fromkeys(xs))`: each element is inserted as a key in input order, and
      a key already present keeps its place. The result holds each distinct element
      of the input exactly once. */
  function DeleteDuplicatesFromList<T(==)>(listWithPotentialDuplicates: seq<T>): (r: seq<T>)
    ensures NoDuplicates(r)
    ensures forall i :: 0 <= i < |r| ==> r[i] in listWithPotentialDuplicates
    ensures forall i :: 0 <= i < |listWithPotentialDuplicates| ==> listWithPotentialDuplicates[i] in r
    decreases |listWithPotentialDuplicates|
  {
    if listWithPotentialDuplicates == [] then []
    else
      var n := |listWithPotentialDuplicates|;
      var kept := DeleteDuplicatesFromList(listWithPotentialDuplicates[..n - 1]);
      var last := listWithPotentialDuplicates[n - 1];
      assert listWithPotentialDuplicates == listWithPotentialDuplicates[..n - 1] + [last];
      if last in kept then kept else kept + [last]
  }

  /** An element is kept exactly when it occurs in the input. */
  lemma DeleteDuplicatesMember<T>(xs: seq<T>, x: T)
    ensures x in DeleteDuplicatesFromList(xs) <==> x in xs
  {
  }

  /** Appending an element does not move the first occurrence of an earlier one. */
  lemma FirstIndexInPrefix<T>(init: seq<T>, last: T, y: T)
    requires y in init
    ensures FirstIndex(init + [last], y) == FirstIndex(init, y) < |init|
  {
    var k := FirstIndex(init, y);
    assert (init + [last])[..k] == init[..k];
    FirstIndexUnique(init + [last], y, k);
  }

  /** The distinct elements appear in the order of their first occurrence in the input. */
  lemma {:induction false} DeleteDuplicatesKeepsFirstOccurrenceOrder<T>(xs: seq<T>)
    ensures forall i, j :: 0 <= i < j < |DeleteDuplicatesFromList(xs)| ==>
              FirstIndex(xs, DeleteDuplicatesFromList(xs)[i]) < FirstIndex(xs, DeleteDuplicatesFromList(xs)[j])
    decreases |xs|
  {
    if xs != [] {
      var init, last := xs[..|xs| - 1], xs[|xs| - 1];
      assert xs == init + [last];
      DeleteDuplicatesKeepsFirstOccurrenceOrder(init);
      var kept := DeleteDuplicatesFromList(init);
      var r := DeleteDuplicatesFromList(xs);
      forall i, j | 0 <= i < j < |kept| ensures FirstIndex(xs, kept[i]) < FirstIndex(xs, kept[j]) {
        assert kept[i] in init && kept[j] in init;
        assert FirstIndex(init, kept[i]) < FirstIndex(init, kept[j]);
        FirstIndexInPrefix(init, last, kept[i]);
        FirstIndexInPrefix(init, last, kept[j]);
      }
      if last in kept {
        assert r == kept;
      } else {
        assert r == kept + [last];
        DeleteDuplicatesMember(init, last);
        FirstIndexUnique(xs, last, |xs| - 1);
        forall i | 0 <= i < |kept| ensures FirstIndex(xs, kept[i]) < FirstIndex(xs, last) {
          FirstIndexInPrefix(init, last, kept[i]);
        }
      }
    }
  }

  /** A list without duplicates is returned unchanged. */
  lemma {:induction false} DeleteDuplicatesOfDistinct<T>(xs: seq<T>)
    requires NoDuplicates(xs)
    ensures DeleteDuplicatesFromList(xs) == xs
    decreases |xs|
  {
    if xs != [] {
      var init := xs[..|xs| - 1];
      assert NoDuplicates(init);
      DeleteDuplicatesOfDistinct(init);
      assert xs[|xs| - 1] !in init by {
        forall i | 0 <= i < |init| ensures init[i] != xs[|xs| - 1] {
          assert init[i] == xs[i];
        }
      }
      assert xs == init + [xs[|xs| - 1]];
    }
  }

  /** Removing duplicates twice is the same as removing them once. */
  lemma DeleteDuplicatesIdempotent<T>(xs: seq<T>)
    ensures DeleteDuplicatesFromList(DeleteDuplicatesFromList(xs)) == DeleteDuplicatesFromList(xs)
  {
    DeleteDuplicatesOfDistinct(DeleteDuplicatesFromList(xs));
  }

  /** `[a, b, a, c, b]` becomes `[a, b, c]`: first occurrence wins, order is kept. */
  lemma DeleteDuplicatesExample<T>(a: T, b: T, c: T)
    requires a != b && b != c && a != c
    ensures DeleteDuplicatesFromList([a, b, a, c, b]) == [a, b, c]
  {
    var xs := [a, b, a, c, b];
    assert xs[..0] == [];
    assert xs[..1][..0] == [];
    assert DeleteDuplicatesFromList(xs[..1]) == [a];
    assert xs[..2][..1] == xs[..1];
    assert DeleteDuplicatesFromList(xs[..2]) == [a, b];
    assert xs[..3][..2] == xs[..2];
    assert DeleteDuplicatesFromList(xs[..3]) == [a, b];
    assert xs[..4][..3] == xs[..3];
    assert DeleteDuplicatesFromList(xs[..4]) == [a, b, c];
    assert xs[..4] == xs[..|xs| - 1];
  }
}
