/**
 * The message a web page hands to the host mobile shell: the event token
 * wrapped in a one-key JSON object, `{"event":"<token>"}`.
 */
module Wire {
  import opened Wrappers

  /** The closed set of events the hook's signature admits. */
  datatype BridgeEvent = TradingBack | TradingHome

  /** The string token of each event, as the host recognises it. */
  function Token(e: BridgeEvent): (t: string)
    ensures |t| > 0
    // the token needs no JSON escaping, so it is written into the wire form verbatim
    ensures forall i | 0 <= i < |t| :: t[i] != '"' && t[i] != '\\' && t[i] >= ' '
  {
    match e
    case TradingBack => "trading:back"
    case TradingHome => "trading:home"
  }

  /** The event a token names, if any. */
  function EventOfToken(t: string): (r: Option<BridgeEvent>)
    ensures r.Some? ==> Token(r.value) == t
    ensures forall e :: Token(e) == t ==> r == Some(e)
  {
    if t == "trading:back" then Some(TradingBack)
    else if t == "trading:home" then Some(TradingHome)
    else None
  }

  const Prefix: string := "{\"event\":\""
  const Suffix: string := "\"}"

  /** The JSON serialisation of an object whose only key is `event`: no whitespace, the token as a JSON string. */
  function Serialize(e: BridgeEvent): (wire: string)
    ensures e == TradingBack ==> wire == "{\"event\":\"trading:back\"}"
    ensures e == TradingHome ==> wire == "{\"event\":\"trading:home\"}"
  {
    Prefix + Token(e) + Suffix
  }

  /** How a host reads a wire message back: only the canonical form of a known event is accepted. */
  function Parse(wire: string): (r: Option<BridgeEvent>)
    ensures r.Some? ==> wire == Serialize(r.value)
  {
    if |wire| >= |Prefix| + |Suffix|
       && wire[..|Prefix|] == Prefix
       && wire[|wire| - |Suffix|..] == Suffix
    then
      var token := wire[|Prefix|..|wire| - |Suffix|];
      var r := EventOfToken(token);
      assert wire == wire[..|Prefix|] + token + wire[|wire| - |Suffix|..];
      r
    else None
  }

  /** The host recovers exactly the event that was sent. */
  lemma ParseSerialize(e: BridgeEvent)
    ensures Parse(Serialize(e)) == Some(e)
  {
    var w := Serialize(e);
    assert w[..|Prefix|] == Prefix;
    assert w[|w| - |Suffix|..] == Suffix;
    assert w[|Prefix|..|w| - |Suffix|] == Token(e);
  }

  /** Distinct events never share a wire form. */
  lemma SerializeInjective(e1: BridgeEvent, e2: BridgeEvent)
    ensures Serialize(e1) == Serialize(e2) ==> e1 == e2
  {
    if Serialize(e1) == Serialize(e2) {
      ParseSerialize(e1);
      ParseSerialize(e2);
    }
  }
}
