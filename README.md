# Dictionary-parsing helpers of the SPDX tools, in Dafny

This project models `src/spdx/parser/jsonlikedict/dict_parsing_functions.py` of the
SPDX Python tools. That file is the error-tolerant layer used when a decoded
JSON/YAML-like dictionary is turned into SPDX model objects. A field, or one element of
a list field, that fails to parse does not stop the parse. Its messages go into a
`Logger` and the caller's default is used, or the element is skipped. A non-empty log
becomes one `SPDXParsingError` at the boundary of the object or list being parsed.

Files and modules:

- `exceptions.dfy`, module `Exceptions`. Python exceptions as values. `Raised<T>` is
  either `Returned(value)` or `Raise(error)`. The error kinds are `SpdxParsingError`,
  `TypeOrValueError` (the `(TypeError, ValueError)` clause), `ConstructorTypeErrors`
  and `OtherException`. `Recoverable` names the kinds the helpers catch, and
  `CaughtMessages` is what `logger.extend` receives for one of them.
- `python_values.dfy`, module `PythonValues`. The decoded values (`Value`), Python
  truthiness (`Falsy`), `type(x).__name__` (`TypeName`), what a `for` loop visits
  (`Iterate`), the f-string rendering of a list of strings (`ListRepr`), and
  `MutableList`, a Python list object that `append` changes in place.
- `logger.dfy`, module `Logging`. The `Logger`: a sequence of messages that is only
  ever appended to.
- `element_collection.dfy`, module `ElementCollection`. What the loop of
  `parse_list_of_elements` computes. `Collect` follows the loop prefix by prefix.
  `Successes` and `FailureMessages` are independent element-by-element reference
  definitions, and lemmas prove the loop matches them. `ListParse` is the outcome of
  the whole function.
- `dict_parsing_functions.dfy`, module `DictParsingFunctions`. The nine functions of
  the source file. Those that change the log or a list in place are methods over the
  `Logger` and `MutableList` classes. Those that only compute are functions.
  `ParseFieldOrLogError` and `ParseListOfElements` are specified by the functions
  `FieldParse` and `ListParse`, and the properties are proved about those functions.
  `AppendParsedFieldOrLogError` has no specifying function: its own postconditions
  give the list's and the log's new contents in terms of the old ones.

Parsing methods are function parameters `Value -> Raised<T>`; a constructor is a
`Constructor<A, T>` holding its `__name__` and a function `A -> Raised<T>`. Python's
default arguments are passed explicitly. `Identity` stands for `lambda x: x`, `NoValue`
for `default=None`, `null` for `logger=None` and `None` for `parsed_object_name=None`.

Where the code behaves differently from what one might expect, the model follows the
code:

- The sentinel resolvers compare the field value itself with the token, not the
  field's string form. Only a string equal to the token matches.
- A list parse in which some element fails with a message does not return the
  surviving elements. It raises, and `parse_field_or_log_error` then returns the
  caller's default instead of a partial list.
- Exceptions other than parsing, type and value errors are not translated. They
  propagate out of every helper except `construct_or_raise_parsing_error`, which turns
  a `ConstructorTypeErrors` from its constructor into a parsing error. A
  `ConstructorTypeErrors` raised by a parsing method directly, rather than through
  `construct_or_raise_parsing_error`, propagates like the other kinds.
- An element failure whose message list is empty leaves no trace. The log stays
  empty, so nothing is raised and the partial list is returned.
  `ListParseCollectsEveryFailure` states this case together with the others.

## Model

| member | source | states |
|---|---|---|
| `DictParsingFunctions.JsonStrToEnumName` | src/spdx/parser/jsonlikedict/dict_parsing_functions.py:20-23 | A non-string raises one parsing error "Type for enum must be str not <type name>". A string gives a name of the same length whose every character is the input's with `-` made `_` and upper-cased. The name contains no `-` and no lower-case ASCII letter. |
| `DictParsingFunctions.EnumNameIsNormalised` | src/spdx/parser/jsonlikedict/dict_parsing_functions.py:23 | Normalising an enum name a second time returns it unchanged. |
| `DictParsingFunctions.ConstructOrRaiseParsingError` | src/spdx/parser/jsonlikedict/dict_parsing_functions.py:26-31 | A constructed object is returned unchanged. A ConstructorTypeErrors becomes a parsing error with the single message "Error while constructing <Name>: <messages>". Any other exception propagates as it was. No ConstructorTypeErrors ever leaves the call. |
| `DictParsingFunctions.RaiseParsingErrorIfLoggerHasMessages` | src/spdx/parser/jsonlikedict/dict_parsing_functions.py:62-67 | It raises exactly when the log is non-empty, and what it raises is a parsing error with at least one message. With a non-empty name that is the single message "Error while parsing <name>: <log>". Without one it is the log's messages verbatim and in order. |
| `DictParsingFunctions.ParseFieldOrNoAssertionOrNone` | src/spdx/parser/jsonlikedict/dict_parsing_functions.py:70-76 | The no-assertion token gives SpdxNoAssertion and the none token gives SpdxNone, whatever the method. Every other value gives the method's outcome. A sentinel comes back only for a string equal to one of the two tokens. |
| `DictParsingFunctions.ParseFieldOrNoAssertion` | src/spdx/parser/jsonlikedict/dict_parsing_functions.py:79-83 | The no-assertion token gives SpdxNoAssertion. Every other value, the none token included, gives the method's outcome. It agrees with the `_or_none` variant on every value except the none token, and differs from it there. |
| `DictParsingFunctions.DefaultMethodReturnsFieldUnchanged` | src/spdx/parser/jsonlikedict/dict_parsing_functions.py:70-83 | With the default method `lambda x: x`, both resolvers return a string other than the two tokens unchanged. |
| `DictParsingFunctions.AppendParsedFieldOrLogError` | src/spdx/parser/jsonlikedict/dict_parsing_functions.py:50-59 | On success the same list object is returned with exactly one new last element and the log is unchanged. On a parsing, type or value error the list is unchanged, the log gains that error's messages at its end, and nothing is raised. Any other exception propagates and changes nothing. |
| `DictParsingFunctions.ParseListOfElements` | src/spdx/parser/jsonlikedict/dict_parsing_functions.py:86-94 | The outcome is `ListParse` of the supplied logger's earlier entries (none for a fresh logger): a fresh list object holding the parsed elements, or the exception raised. A supplied logger ends with its earlier entries followed by the loop's. |
| `DictParsingFunctions.FieldParse` | src/spdx/parser/jsonlikedict/dict_parsing_functions.py:34-47 | A falsy field gives the default and logs nothing, whatever the method. A parse, type or value failure is never raised: it is logged and gives the default, and anything logged means the default was returned. A scalar success gives the parsed value. For a list field, a non-iterable field logs its TypeError's message and gives the default; otherwise the list parse of its elements with a fresh logger decides: its list is the result, its parsing error's messages are logged and give the default, and its escaping exception propagates. An escaping exception logs nothing. A list result comes only from a list field and has at most as many elements as the field. |
| `DictParsingFunctions.ParseFieldOrLogError` | src/spdx/parser/jsonlikedict/dict_parsing_functions.py:34-47 | The caller's log gains exactly the messages `FieldParse` says, after its earlier entries. The result is the default, the parsed value, a fresh list object with the parsed elements, or the escaping exception, as `FieldParse` says. |
| `DictParsingFunctions.ListFieldAllOrDefault` | src/spdx/parser/jsonlikedict/dict_parsing_functions.py:36-47 | For a list field whose elements raise nothing uncaught: if no failure logged a message, the result is every parsed element in input order. Otherwise the result is the default, not a partial list, and the caller's log gains every failing element's messages in input order. |
| `DictParsingFunctions.ListFieldAllParsed` | src/spdx/parser/jsonlikedict/dict_parsing_functions.py:39-40 | A non-empty list field whose elements all parse gives all of them, parsed and in input order, and logs nothing. |
| `DictParsingFunctions.DeleteDuplicatesFromList` | src/spdx/parser/jsonlikedict/dict_parsing_functions.py:97-99 | The result has no duplicates. Every element of the result occurs in the input, and every input element occurs in the result. |
| `DictParsingFunctions.DeleteDuplicatesKeepsFirstOccurrenceOrder` | src/spdx/parser/jsonlikedict/dict_parsing_functions.py:98 | The kept elements appear in the order of their first occurrence in the input. |
| `DictParsingFunctions.DeleteDuplicatesOfDistinct` | src/spdx/parser/jsonlikedict/dict_parsing_functions.py:98 | A list without duplicates comes back unchanged. |
| `DictParsingFunctions.DeleteDuplicatesIdempotent` | src/spdx/parser/jsonlikedict/dict_parsing_functions.py:97-99 | Removing duplicates twice equals removing them once. |
| `DictParsingFunctions.DeleteDuplicatesExample` | src/spdx/parser/jsonlikedict/dict_parsing_functions.py:97-99 | For distinct a, b and c, `[a, b, a, c, b]` becomes `[a, b, c]`. |
| `PythonValues.Iterate` | src/spdx/parser/jsonlikedict/dict_parsing_functions.py:90 | Strings, lists and dictionaries can be iterated, and a list yields its items. What is visited is empty exactly when the value is falsy. Every other value raises a TypeError. |
| `ElementCollection.Collect` | src/spdx/parser/jsonlikedict/dict_parsing_functions.py:89-92 | The loop keeps at most one parsed value per element. An exception that leaves the loop is never one the loop catches. |
| `ElementCollection.ListParse` | src/spdx/parser/jsonlikedict/dict_parsing_functions.py:86-94 | A list is returned only when the whole log is empty (the supplied logger's earlier entries and every message the loop logged) and no element escaped, and it has at most one element per input. A caught kind is raised only as one parsing error whose messages start with the logger's earlier entries and are never empty. |
| `ElementCollection.CollectMatchesReference` | src/spdx/parser/jsonlikedict/dict_parsing_functions.py:89-92 | When nothing escapes, the loop keeps exactly the successfully parsed values in input order, so a failed element is skipped, not replaced. It logs exactly the failing elements' messages in input order, so no failure is lost. |
| `ElementCollection.CollectAfterEscape` | src/spdx/parser/jsonlikedict/dict_parsing_functions.py:90-92 | Once an uncaught exception leaves the loop, the later elements change nothing. |
| `ElementCollection.CollectStopsAtFirstEscape` | src/spdx/parser/jsonlikedict/dict_parsing_functions.py:90-92 | The first uncaught exception, at element k, propagates unchanged. The elements before k have been kept or logged as usual. |
| `ElementCollection.SuccessesAndFailuresPartition` | src/spdx/parser/jsonlikedict/dict_parsing_functions.py:89-92 | When nothing escapes, the kept elements plus the failed elements number exactly the input's N. |
| `ElementCollection.OneMessagePerFailure` | src/spdx/parser/jsonlikedict/dict_parsing_functions.py:89-92 | When every failure carries one message, the log holds exactly one message per failing element. |
| `ElementCollection.FailureOfElementLogged` | src/spdx/parser/jsonlikedict/dict_parsing_functions.py:89-92 | A failing element's messages sit in the log after those of the earlier failures and before those of the later ones. |
| `ElementCollection.AllParsedReference` | src/spdx/parser/jsonlikedict/dict_parsing_functions.py:89-92 | If every element parses, nothing is logged and the kept values are every parsed value, in order. |
| `ElementCollection.ListParseCollectsEveryFailure` | src/spdx/parser/jsonlikedict/dict_parsing_functions.py:86-94 | Collect-then-raise with a fresh logger and nothing escaping. If no failure logged a message, every successfully parsed element is returned. Otherwise one parsing error is raised holding every failing element's messages in input order. |
| `ElementCollection.ListParseAllValid` | src/spdx/parser/jsonlikedict/dict_parsing_functions.py:86-94 | If all N elements parse, all N parsed values are returned in input order. |
| `ElementCollection.ListParseReportsEveryFailedElement` | src/spdx/parser/jsonlikedict/dict_parsing_functions.py:86-94 | Suppose K > 0 elements fail with one message each. Then one parsing error with exactly K messages is raised, and the other N - K elements had parsed. |

## Left out

- JsonStrToEnumName: upper-cases ASCII letters only. Python's `str.upper()` also maps other Unicode letters and can change a string's length ("ß" becomes "SS").
- ListRepr: renders each message as `'text'` with no escaping. Python's `repr` picks the quote character and escapes quotes, backslashes and control characters. The messages built at lines 30 and 65 differ from Python's for such text.
- The internals of the classes `Logger`, `SPDXParsingError`, `ConstructorTypeErrors`, `SpdxNoAssertion` and `SpdxNone` are not modelled. The logger is a class holding an append-only sequence with `extend`, `has_messages` and `get_messages`. The sentinels are the constructors of `Resolved`. Their string forms are taken to be "NOASSERTION" and "NONE".
- `ConstructorTypeErrors` is treated as distinct from `TypeError`, so a parsing method that raises it directly gets no log entry and the error propagates. If the real class derives from `TypeError`, `parse_field_or_log_error` and `append_parsed_field_or_log_error` would instead log its `args[0]`.
- A supplied logger's truthiness in `if not logger` (line 87) depends on the `Logger` class. Every non-null `Logger` counts as supplied, and `null` stands for `logger=None`.
- `err.args[0]` of a TypeError or ValueError is modelled as the list of strings `logger.extend` iterates. A bare string, which Python splits into characters, is modelled only for the "'<type>' object is not iterable" TypeError that iterating a non-iterable list field raises.
- Keyword-argument construction (`**args_for_construction`, line 28) is a function from an abstract argument value. The real domain constructors are not modelled.
- Parsing methods are pure, total functions. Side effects, non-termination and parsing methods that change the caller's logger are not modelled.
- Decoded values are None, booleans, integers, reals, strings, lists and dictionaries with string keys. User objects with their own `__eq__` or `__bool__` are not modelled.
- `Value` equality is structural, so `Int(1)`, `Bool(true)` and `Float(1.0)` are three distinct values. Python's `==` and hashing treat `1`, `True` and `1.0` as one value, so `dict.fromkeys` at line 98 keeps only the first of `[1, True, 1.0]`, while `DeleteDuplicatesFromList` keeps all three.
- A `Dict` value can hold the same key more than once, which a Python dict cannot. `Iterate` then visits that key once per entry, where Python visits it once.
- The elements of `delete_duplicates_from_list` need only equality. Python also requires them to be hashable and raises TypeError otherwise.
