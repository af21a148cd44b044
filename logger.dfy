/** The parser's error log: an ordered list of messages that is only ever appended to. */
module Logging {

  class Logger {
    var messages: seq<string>

    constructor ()
      ensures messages == []
    {
      messages := [];
    }

    /** `logger.extend(messages)`: appends, in order, keeping every earlier entry. */
    method Extend(newMessages: seq<string>)
      modifies this
      ensures messages == old(messages) + newMessages
    {
      messages := messages + newMessages;
    }

    function HasMessages(): bool
      reads this
    {
      messages != []
    }

    function GetMessages(): seq<string>
      reads this
    {
      messages
    }
  }
}
