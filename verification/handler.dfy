/**
 The command lookup of `src/app/handler.rs`: a single registered command,
 `PING`, whose handler answers `PONG`.
 */
module Handler {
  import opened Io
  import opened Resp

  /** The handler functions that exist; the source defines only `ping_handler`. */
  datatype HandlerFunc = PingHandler

  /** `ping_handler`: the arguments are accepted and not looked at. */
  function Ping(args: seq<Value>): (r: Value)
    ensures r.typ == "string" && r.str == "PONG"
    ensures r.num == 0 && r.bulk == "" && r.arr == []
  {
    Value("string", "PONG", 0, "", [])
  }

  /** Calling a looked-up handler. */
  function Call(h: HandlerFunc, args: seq<Value>): Value {
    match h
    case PingHandler => Ping(args)
  }

  /** `get_handler`: an exact, case-sensitive match on the command name. */
  function GetHandler(command: string): (h: Option<HandlerFunc>)
    ensures h.Some? <==> command == "PING"
    ensures h.Some? ==> forall args :: Call(h.value, args) == Value("string", "PONG", 0, "", [])
  {
    if command == "PING" then Some(PingHandler) else None
  }

  /** The PING reply does not depend on the arguments. */
  lemma PingIgnoresArguments(a: seq<Value>, b: seq<Value>)
    ensures Ping(a) == Ping(b)
  {
  }

  /** Lower-case and mixed-case spellings are unknown commands. */
  lemma GetHandlerIsCaseSensitive()
    ensures GetHandler("ping") == None && GetHandler("Ping") == None
  {
  }
}
