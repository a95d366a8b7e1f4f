/** The parsed JSON tree that the merge-patch handlers receive from Jackson,
    and the per-field decisions those handlers make on it. */
module Json {
  import opened Common

  /** A Jackson `JsonNode`. `JNum` holds an integral number; `JOther` stands
      for booleans and arrays, which no handler accepts for any field. */
  datatype Json =
    | JNull
    | JText(text: string)
    | JNum(num: int)
    | JObject(fields: map<string, Json>)
    | JOther

  /** `JsonNode.has(key)`: only an object has fields; on any other node it
      is false. */
  predicate Has(node: Json, key: string) {
    node.JObject? && key in node.fields
  }

  /** `JsonNode.get(key)` for a key that `has` reported. */
  function Get(node: Json, key: string): Json
    requires Has(node, key)
  {
    node.fields[key]
  }

  /** `JsonNode.intValue()` / `asInt()` of an integral number: the low 32
      bits. */
  function IntValue(n: int): Int32 {
    Wrap32(n)
  }

  /** The node is text or null. */
  predicate TextOrNull(v: Json) { v.JNull? || v.JText? }

  /** The node is a number or null. */
  predicate NumberOrNull(v: Json) { v.JNull? || v.JNum? }

  /** What a patch says about one field: leave it, overwrite it, or reject
      the whole patch. */
  datatype Decision<T> = Keep | Replace(value: T) | Invalid

  function Resolve<T>(d: Decision<T>, current: T): T
    requires !d.Invalid?
  {
    if d.Replace? then d.value else current
  }

  /** A mandatory text field: absent or null keeps the value, text
      replaces it, any other JSON type is rejected. */
  function MandatoryText(patch: Json, key: string): (d: Decision<string>)
    ensures d.Replace? <==> Has(patch, key) && Get(patch, key).JText?
    ensures d.Invalid? <==> Has(patch, key) && !Get(patch, key).JNull? && !Get(patch, key).JText?
    ensures d.Replace? ==> d.value == Get(patch, key).text
  {
    if !Has(patch, key) then Keep
    else match Get(patch, key)
      case JNull => Keep
      case JText(s) => Replace(s)
      case _ => Invalid
  }

  /** A nullable text field: absent keeps, null clears, text replaces, any
      other JSON type is rejected. */
  function NullableText(patch: Json, key: string): (d: Decision<Option<string>>)
    ensures d.Keep? <==> !Has(patch, key)
    ensures Has(patch, key) && Get(patch, key).JNull? ==> d == Replace(None)
    ensures Has(patch, key) && Get(patch, key).JText? ==> d == Replace(Some(Get(patch, key).text))
    ensures d.Invalid? <==> Has(patch, key) && !Get(patch, key).JNull? && !Get(patch, key).JText?
  {
    if !Has(patch, key) then Keep
    else match Get(patch, key)
      case JNull => Replace(None)
      case JText(s) => Replace(Some(s))
      case _ => Invalid
  }

  /** A nullable number field: absent keeps, null clears, a number replaces
      (narrowed by `intValue()`), any other JSON type is rejected. */
  function NullableNumber(patch: Json, key: string): (d: Decision<Option<Int32>>)
    ensures d.Keep? <==> !Has(patch, key)
    ensures Has(patch, key) && Get(patch, key).JNull? ==> d == Replace(None)
    ensures Has(patch, key) && Get(patch, key).JNum? ==> d == Replace(Some(IntValue(Get(patch, key).num)))
    ensures d.Invalid? <==> Has(patch, key) && !Get(patch, key).JNull? && !Get(patch, key).JNum?
  {
    if !Has(patch, key) then Keep
    else match Get(patch, key)
      case JNull => Replace(None)
      case JNum(n) => Replace(Some(IntValue(n)))
      case _ => Invalid
  }

  /** A required number field with no null handling: absent keeps, a number
      replaces (narrowed by `asInt()`), null and every other type are
      rejected. */
  function RequiredNumber(patch: Json, key: string): (d: Decision<Int32>)
    ensures d.Keep? <==> !Has(patch, key)
    ensures Has(patch, key) && Get(patch, key).JNum? ==> d == Replace(IntValue(Get(patch, key).num))
    ensures d.Invalid? <==> Has(patch, key) && !Get(patch, key).JNum?
  {
    if !Has(patch, key) then Keep
    else match Get(patch, key)
      case JNum(n) => Replace(IntValue(n))
      case _ => Invalid
  }

  // The handlers' per-field blocks, on mutable locals: each starts from the
  // stored value, and its `accepted` is false where the handler returns.

  /** The block for a mandatory text field. */
  method ReadMandatoryText(node: Json, key: string, current: string) returns (accepted: bool, value: string)
    ensures accepted <==> !MandatoryText(node, key).Invalid?
    ensures accepted ==> value == Resolve(MandatoryText(node, key), current)
  {
    value := current;
    if Has(node, key) {
      var field := Get(node, key);
      if field.JNull? {
        value := current;
      } else if field.JText? {
        value := field.text;
      } else {
        return false, value;
      }
    }
    accepted := true;
  }

  /** The block for a text field that null clears. */
  method ReadNullableText(node: Json, key: string, current: Option<string>)
    returns (accepted: bool, value: Option<string>)
    ensures accepted <==> !NullableText(node, key).Invalid?
    ensures accepted ==> value == Resolve(NullableText(node, key), current)
  {
    value := current;
    if Has(node, key) {
      var field := Get(node, key);
      if field.JNull? {
        value := None;
      } else if field.JText? {
        value := Some(field.text);
      } else {
        return false, value;
      }
    }
    accepted := true;
  }

  /** The block for a number field that null clears. */
  method ReadNullableNumber(node: Json, key: string, current: Option<Int32>)
    returns (accepted: bool, value: Option<Int32>)
    ensures accepted <==> !NullableNumber(node, key).Invalid?
    ensures accepted ==> value == Resolve(NullableNumber(node, key), current)
  {
    value := current;
    if Has(node, key) {
      var field := Get(node, key);
      if field.JNull? {
        value := None;
      } else if field.JNum? {
        value := Some(IntValue(field.num));
      } else {
        return false, value;
      }
    }
    accepted := true;
  }

  /** The block for a required number field: only a number is accepted. */
  method ReadRequiredNumber(node: Json, key: string, current: Int32) returns (accepted: bool, value: Int32)
    ensures accepted <==> !RequiredNumber(node, key).Invalid?
    ensures accepted ==> value == Resolve(RequiredNumber(node, key), current)
  {
    value := current;
    if Has(node, key) {
      var field := Get(node, key);
      if field.JNum? {
        value := IntValue(field.num);
      } else {
        return false, value;
      }
    }
    accepted := true;
  }
}
