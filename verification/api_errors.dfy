/**
 * The front end's reading of a failed API call (`extractFastApiError`): the `detail` of a
 * FastAPI error body, either a plain message or a list of validation items rendered one per line
 * as `loc: msg`. The thrown value is any JavaScript value, modelled as `JsValue`.
 */
module ApiErrors {
  import Text

  /** JavaScript values, with integral numbers only. */
  datatype JsValue =
    | JsUndefined
    | JsNull
    | JsBool(b: bool)
    | JsNumber(n: int)
    | JsString(s: string)
    | JsArray(items: seq<JsValue>)
    | JsObject(props: map<string, JsValue>)

  const RequestFailed: string := "Request failed"
  const InvalidValue: string := "Invalid value"
  const ValidationLoc: string := "validation"

  /** `typeof value === "object" && value !== null`: arrays are objects too. */
  predicate IsObject(v: JsValue) {
    v.JsArray? || v.JsObject?
  }

  /** `value[name]` for a non-index property name: only plain objects carry such properties. */
  function GetProp(v: JsValue, name: string): (r: JsValue)
    ensures !v.JsObject? ==> r == JsUndefined
    ensures v.JsObject? && name !in v.props ==> r == JsUndefined
    ensures v.JsObject? && name in v.props ==> r == v.props[name]
  {
    if v.JsObject? && name in v.props then v.props[name] else JsUndefined
  }

  /**
   * `String(value)`: arrays render as their elements joined with "," (with `null` and
   * `undefined` elements as empty strings), plain objects as "[object Object]".
   */
  function JsToString(v: JsValue): (r: string)
    ensures v.JsString? ==> r == v.s
    ensures v.JsArray? && |v.items| == 0 ==> r == ""
    decreases v, 0
  {
    match v
    case JsUndefined => "undefined"
    case JsNull => "null"
    case JsBool(b) => if b then "true" else "false"
    case JsNumber(n) => Text.IntToString(n)
    case JsString(s) => s
    case JsArray(items) => Text.Join(seq(|items|, i requires 0 <= i < |items| => ElementToString(items[i])), ",")
    case JsObject(_) => "[object Object]"
  }

  /** How `Array.prototype.join` renders one element. */
  function ElementToString(v: JsValue): (r: string)
    ensures v.JsNull? || v.JsUndefined? ==> r == ""
    decreases v, 1
  {
    if v.JsNull? || v.JsUndefined? then "" else JsToString(v)
  }

  /** `items.map(String)`. */
  function Strings(items: seq<JsValue>): (r: seq<string>)
    ensures |r| == |items|
    ensures forall i :: 0 <= i < |items| ==> r[i] == JsToString(items[i])
  {
    seq(|items|, i requires 0 <= i < |items| => JsToString(items[i]))
  }

  /**
   * The location part of an item: `loc.map(String).join(".")` when it is an array, else
   * "validation". When no element's text holds a ".", splitting the location on "." gives back
   * the elements' texts.
   */
  function LocText(loc: JsValue): (r: string)
    ensures !loc.JsArray? ==> r == ValidationLoc
    ensures loc.JsArray? && |loc.items| == 0 ==> r == ""
    ensures loc.JsArray? && |loc.items| == 1 ==> r == JsToString(loc.items[0])
    ensures loc.JsArray? && |loc.items| >= 1 && (forall i :: 0 <= i < |loc.items| ==> '.' !in JsToString(loc.items[i])) ==>
      Text.Split(r, '.') == Strings(loc.items)
  {
    if loc.JsArray? then
      var parts := Strings(loc.items);
      if |parts| >= 1 && (forall i :: 0 <= i < |parts| ==> '.' !in parts[i]) then
        Text.SplitJoin(parts, '.');
        Text.Join(parts, ".")
      else Text.Join(parts, ".")
    else ValidationLoc
  }

  /** One validation item: its location, ": ", then its message (or "Invalid value" when it is not a string). */
  function FormatItem(item: JsValue): (r: string)
    ensures !IsObject(item) ==> r == InvalidValue
    ensures IsObject(item) && GetProp(item, "msg").JsString? ==>
      r == LocText(GetProp(item, "loc")) + ": " + GetProp(item, "msg").s
    ensures IsObject(item) && !GetProp(item, "msg").JsString? ==>
      r == LocText(GetProp(item, "loc")) + ": " + InvalidValue
  {
    if !IsObject(item) then InvalidValue
    else
      var msg := GetProp(item, "msg");
      LocText(GetProp(item, "loc")) + ": " + (if msg.JsString? then msg.s else InvalidValue)
  }

  /** The rendered items, in order. */
  function FormattedItems(items: seq<JsValue>): (r: seq<string>)
    ensures |r| == |items|
    ensures forall i :: 0 <= i < |items| ==> r[i] == FormatItem(items[i])
  {
    seq(|items|, i requires 0 <= i < |items| => FormatItem(items[i]))
  }

  /** `error.response.data.detail`, or `undefined` when the error, its response or its data is not an object. */
  function Detail(e: JsValue): (r: JsValue)
    ensures !IsObject(e) || !IsObject(GetProp(e, "response")) || !IsObject(GetProp(GetProp(e, "response"), "data"))
      ==> r == JsUndefined
    ensures IsObject(e) && IsObject(GetProp(e, "response")) && IsObject(GetProp(GetProp(e, "response"), "data"))
      ==> r == GetProp(GetProp(GetProp(e, "response"), "data"), "detail")
  {
    if !IsObject(e) then JsUndefined
    else
      var response := GetProp(e, "response");
      if !IsObject(response) then JsUndefined
      else
        var data := GetProp(response, "data");
        if !IsObject(data) then JsUndefined else GetProp(data, "detail")
  }

  /**
   * `extractFastApiError`: a string detail is shown as it is; a list of validation items becomes
   * one rendered line per item, which splits back into those items when none of them spans lines;
   * anything else is "Request failed".
   */
  function ExtractFastApiError(e: JsValue): (r: string)
    ensures !IsObject(e) ==> r == RequestFailed
    ensures Detail(e).JsString? ==> r == Detail(e).s
    ensures !Detail(e).JsString? && !Detail(e).JsArray? ==> r == RequestFailed
    ensures Detail(e).JsArray? ==> r == Text.Join(FormattedItems(Detail(e).items), "\n")
    ensures Detail(e).JsArray? && |Detail(e).items| == 0 ==> r == ""
    ensures Detail(e).JsArray? && |Detail(e).items| >= 1
            && (forall i :: 0 <= i < |Detail(e).items| ==> '\n' !in FormatItem(Detail(e).items[i])) ==>
      Text.Split(r, '\n') == FormattedItems(Detail(e).items)
  {
    var detail := Detail(e);
    if detail.JsString? then detail.s
    else if detail.JsArray? then
      var lines := FormattedItems(detail.items);
      if |lines| >= 1 && (forall i :: 0 <= i < |lines| ==> '\n' !in lines[i]) then
        Text.SplitJoin(lines, '\n');
        Text.Join(lines, "\n")
      else Text.Join(lines, "\n")
    else RequestFailed
  }

  /** An axios error whose response body is `{"detail": ...}`. */
  function AxiosError(detail: JsValue): JsValue {
    JsObject(map["response" := JsObject(map["data" := JsObject(map["detail" := detail])])])
  }

  /** An `HTTPException` detail reaches the user verbatim. */
  lemma HttpExceptionDetailShown(message: string)
    ensures ExtractFastApiError(AxiosError(JsString(message))) == message
  {
  }

  /** A location given as a path of names: `["body", "symbol"]`. */
  function NameItems(path: seq<string>): (r: seq<JsValue>)
    ensures |r| == |path|
    ensures forall i :: 0 <= i < |path| ==> r[i] == JsString(path[i])
  {
    seq(|path|, i requires 0 <= i < |path| => JsString(path[i]))
  }

  /** A FastAPI validation item with a path of names and a message renders as `a.b.c: message`. */
  lemma ValidationItemFormat(path: seq<string>, message: string)
    ensures FormatItem(JsObject(map["loc" := JsArray(NameItems(path)), "msg" := JsString(message)]))
         == Text.Join(path, ".") + ": " + message
  {
    var item := JsObject(map["loc" := JsArray(NameItems(path)), "msg" := JsString(message)]);
    assert GetProp(item, "loc") == JsArray(NameItems(path));
    assert GetProp(item, "msg") == JsString(message);
    PathLocText(path);
  }

  /** A path of names renders as the names joined with ".". */
  lemma PathLocText(path: seq<string>)
    ensures LocText(JsArray(NameItems(path))) == Text.Join(path, ".")
  {
    NamesAreTheirStrings(path);
  }

  /** `String` of each name is the name itself. */
  lemma NamesAreTheirStrings(path: seq<string>)
    ensures Strings(NameItems(path)) == path
  {
    var r := Strings(NameItems(path));
    forall i | 0 <= i < |path| ensures r[i] == path[i] {
      assert NameItems(path)[i] == JsString(path[i]);
    }
  }
}
