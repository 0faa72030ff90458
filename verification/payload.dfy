/**
 * The edit form's payload, as the front end's time tracking service tidies
 * it before sending an update: times typed as HH:MM get their seconds, and
 * an emptied clock-out becomes null.
 */
module EditPayload {

  /** The JavaScript values a form field can hold. */
  datatype JsValue = JsUndefined | JsNull | JsBool(b: bool) | JsNumber(n: int) | JsString(s: string) | JsObject

  /** JavaScript truthiness. */
  predicate Truthy(v: JsValue)
  {
    match v
    case JsUndefined => false
    case JsNull => false
    case JsBool(b) => b
    case JsNumber(n) => n != 0
    case JsString(s) => s != ""
    case JsObject => true
  }

  /** A payload: its keys and their values. A key that is absent reads as undefined. */
  type Payload = map<string, JsValue>

  function Get(p: Payload, key: string): JsValue
  {
    if key in p then p[key] else JsUndefined
  }

  /** A truthy string of exactly five characters, the HH:MM a time input produces. */
  predicate ShortTime(v: JsValue)
  {
    v.JsString? && |v.s| == 5
  }

  /** The clock-in rule: HH:MM gains ":00"; anything else is left as it is. */
  function NormaliseClockIn(p: Payload): (q: Payload)
    ensures q.Keys == p.Keys
    ensures forall k :: k in p && k != "clock_in" ==> q[k] == p[k]
    ensures Get(q, "clock_in") == if ShortTime(Get(p, "clock_in")) then JsString(Get(p, "clock_in").s + ":00") else Get(p, "clock_in")
  {
    var v := Get(p, "clock_in");
    if ShortTime(v) then p["clock_in" := JsString(v.s + ":00")] else p
  }

  /** The clock-out rule: HH:MM gains ":00", the empty string becomes null, anything else is left. */
  function NormaliseClockOut(p: Payload): (q: Payload)
    ensures q.Keys == p.Keys
    ensures forall k :: k in p && k != "clock_out" ==> q[k] == p[k]
    ensures Get(q, "clock_out") ==
            if ShortTime(Get(p, "clock_out")) then JsString(Get(p, "clock_out").s + ":00")
            else if Get(p, "clock_out") == JsString("") then JsNull
            else Get(p, "clock_out")
  {
    var v := Get(p, "clock_out");
    if ShortTime(v) then p["clock_out" := JsString(v.s + ":00")]
    else if v == JsString("") then p["clock_out" := JsNull]
    else p
  }

  /** `updateTimeRegistration`'s payload: a copy with both rules applied. */
  function Normalise(p: Payload): (q: Payload)
    ensures q.Keys == p.Keys
    ensures forall k :: k in p && k != "clock_in" && k != "clock_out" ==> q[k] == p[k]
  {
    NormaliseClockOut(NormaliseClockIn(p))
  }

  /** What the two rules leave behind: no HH:MM time, and no empty clock-out. */
  predicate Normalised(p: Payload)
  {
    !ShortTime(Get(p, "clock_in")) && !ShortTime(Get(p, "clock_out")) && Get(p, "clock_out") != JsString("")
  }

  /** A normalised payload has full HH:MM:SS times wherever HH:MM was typed. */
  lemma NormaliseCompletesTimes(p: Payload, hm: string)
    requires |hm| == 5
    ensures Get(p, "clock_in") == JsString(hm) ==> Get(Normalise(p), "clock_in") == JsString(hm + ":00")
    ensures Get(p, "clock_out") == JsString(hm) ==> Get(Normalise(p), "clock_out") == JsString(hm + ":00")
    ensures Get(p, "clock_out") == JsString("") ==> Get(Normalise(p), "clock_out") == JsNull
  {
  }

  /** The result of normalising is normalised. */
  lemma NormaliseEstablishes(p: Payload)
    ensures Normalised(Normalise(p))
  {
  }

  /** Normalised payloads pass through unchanged, so normalising twice is normalising once. */
  lemma NormaliseIdempotent(p: Payload)
    ensures Normalised(p) ==> Normalise(p) == p
    ensures Normalise(Normalise(p)) == Normalise(p)
  {
    NormaliseEstablishes(p);
    var q := Normalise(p);
    assert Normalise(q) == q by {
      assert NormaliseClockIn(q) == q;
    }
  }
}
