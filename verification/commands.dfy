/**
 * The command tokeniser that sits in front of the store: one input line
 * becomes an operation name and its arguments.
 */
module Commands {

  import opened Text

  datatype Command = Command(operation: string, arguments: seq<string>)

  datatype ParseError = EmptyInput | MissingArguments

  datatype ParseResult = Parsed(command: Command) | Failed(error: ParseError)

  /** Splits `input` on whitespace; blank input and input with a single token
      are rejected, otherwise the first token is the operation and the rest,
      in order, are the arguments. */
  function ParseCommand(input: string): (r: ParseResult)
    ensures r == Failed(EmptyInput) <==> forall i :: 0 <= i < |input| ==> IsSpace(input[i])
    ensures r == Failed(MissingArguments) <==> |Tokens(input)| == 1
    ensures r.Parsed? ==>
              && IsToken(r.command.operation)
              && |r.command.arguments| >= 1
              && (forall i :: 0 <= i < |r.command.arguments| ==> IsToken(r.command.arguments[i]))
              && [r.command.operation] + r.command.arguments == Tokens(input)
  {
    TokensEmptyIffBlank(input);
    var parts := Tokens(input);
    if parts == [] then Failed(EmptyInput)
    else if |parts| == 1 then Failed(MissingArguments)
    else
      assert parts == [parts[0]] + parts[1..];
      Parsed(Command(parts[0], parts[1..]))
  }

  /** A line made of at least two tokens joined by spaces parses back into
      exactly those tokens. */
  lemma ParseUnwords(ts: seq<string>)
    requires |ts| >= 2
    requires forall i :: 0 <= i < |ts| ==> IsToken(ts[i])
    ensures ParseCommand(Unwords(ts)) == Parsed(Command(ts[0], ts[1..]))
  {
    TokensUnwords(ts);
  }
}
