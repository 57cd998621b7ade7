/**
 The slice of the `http` crate that the request handlers depend on: bytes,
 header values and their conversion to text, and a header map read in
 insertion order.
 */
module Http {

  datatype Option<+T> = None | Some(value: T)

  newtype byte = x: int | 0 <= x < 256

  /** Raw bytes of one header value, as received on the wire. */
  type HeaderValue = seq<byte>

  datatype Header = Header(name: string, value: HeaderValue)

  /** A header map, in insertion order. Names are already lower-case, as
      the crate's header names always are. A name may occur more than once. */
  type HeaderMap = seq<Header>

  /** The bytes `HeaderValue::to_str` accepts: visible ASCII and horizontal tab. */
  predicate VisibleAscii(b: byte) {
    (32 <= b < 127) || b == 9
  }

  predicate IsText(v: HeaderValue) {
    forall i :: 0 <= i < |v| ==> VisibleAscii(v[i])
  }

  /** `HeaderValue::to_str`: the value as text, or nothing when a byte is
      not visible ASCII. */
  function ToStr(v: HeaderValue): (r: Option<string>)
    ensures r.Some? <==> IsText(v)
    ensures r.Some? ==> |r.value| == |v| && forall i :: 0 <= i < |v| ==> r.value[i] as int == v[i] as int
  {
    if IsText(v) then Some(seq(|v|, i requires 0 <= i < |v| => (v[i] as int) as char)) else None
  }

  predicate Names(h: HeaderMap, name: string) {
    exists i :: 0 <= i < |h| && h[i].name == name
  }

  /** Index `i` holds the first entry stored under `name`. */
  predicate FirstAt(h: HeaderMap, i: int, name: string) {
    0 <= i < |h| && h[i].name == name && forall j :: 0 <= j < i ==> h[j].name != name
  }

  /** Index `i` holds the last entry stored under `name`. */
  predicate LastAt(h: HeaderMap, i: int, name: string) {
    0 <= i < |h| && h[i].name == name && forall j :: i < j < |h| ==> h[j].name != name
  }

  /** `HeaderMap::get`: the value of the FIRST entry stored under `name`. */
  function Get(h: HeaderMap, name: string): (r: Option<HeaderValue>)
    ensures r.None? <==> !Names(h, name)
    ensures r.Some? ==> exists i :: FirstAt(h, i, name) && h[i].value == r.value
  {
    if |h| == 0 then None
    else if h[0].name == name then assert FirstAt(h, 0, name); Some(h[0].value)
    else
      var r := Get(h[1..], name);
      GetStep(h, name, r);
      r
  }

  lemma GetStep(h: HeaderMap, name: string, r: Option<HeaderValue>)
    requires |h| > 0 && h[0].name != name
    requires r.None? <==> !Names(h[1..], name)
    requires r.Some? ==> exists i :: FirstAt(h[1..], i, name) && h[1..][i].value == r.value
    ensures r.None? <==> !Names(h, name)
    ensures r.Some? ==> exists i :: FirstAt(h, i, name) && h[i].value == r.value
  {
    if Names(h, name) {
      var i :| 0 <= i < |h| && h[i].name == name;
      assert h[1..][i - 1].name == name;
    }
    if r.Some? {
      var i :| FirstAt(h[1..], i, name) && h[1..][i].value == r.value;
      forall j | 0 <= j < i + 1 ensures h[j].name != name {
        if j > 0 { assert h[j] == h[1..][j - 1]; }
      }
      assert FirstAt(h, i + 1, name);
    }
  }

  /** The value of the LAST entry stored under `name`: the one a map built by
      inserting every entry in order ends up holding. */
  function Last(h: HeaderMap, name: string): (r: Option<HeaderValue>)
    ensures r.None? <==> !Names(h, name)
    ensures r.Some? ==> exists i :: LastAt(h, i, name) && h[i].value == r.value
  {
    if |h| == 0 then None
    else if h[|h| - 1].name == name then assert LastAt(h, |h| - 1, name); Some(h[|h| - 1].value)
    else
      var r := Last(h[..|h| - 1], name);
      LastStep(h, name, r);
      r
  }

  lemma LastStep(h: HeaderMap, name: string, r: Option<HeaderValue>)
    requires |h| > 0 && h[|h| - 1].name != name
    requires r.None? <==> !Names(h[..|h| - 1], name)
    requires r.Some? ==> exists i :: LastAt(h[..|h| - 1], i, name) && h[i].value == r.value
    ensures r.None? <==> !Names(h, name)
    ensures r.Some? ==> exists i :: LastAt(h, i, name) && h[i].value == r.value
  {
    var front := h[..|h| - 1];
    if Names(h, name) {
      var i :| 0 <= i < |h| && h[i].name == name;
      assert front[i].name == name;
    }
    if r.Some? {
      var i :| LastAt(front, i, name) && h[i].value == r.value;
      assert LastAt(h, i, name);
    }
  }
}
