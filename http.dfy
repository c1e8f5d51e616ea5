/**
 * The parts of the `http` crate that `accept_encoding::parse` relies on:
 * a header map read through `HeaderMap::get`, and a header value read as
 * text through `HeaderValue::to_str`.
 */
module Http {
  import opened Wrappers

  newtype byte = b: int | 0 <= b < 256

  /**
   * A header field value: the raw bytes as they arrived. The crate only
   * builds values whose bytes `IsValidValueByte` accepts (see `WellFormed`);
   * the model does not restrict the datatype itself.
   */
  datatype HeaderValue = HeaderValue(bytes: seq<byte>)

  /** The (unit) error `HeaderValue::to_str` reports. */
  datatype ToStrError = ToStrError

  /**
   * A header map: its fields in insertion order, each a lower-case field
   * name with one value. A name may repeat.
   */
  datatype HeaderMap = HeaderMap(fields: seq<(string, HeaderValue)>)

  /** The bytes a header value may hold: tab and every byte from 32 up except DEL (127). */
  predicate IsValidValueByte(b: byte)
  {
    (32 <= b && b != 127) || b == 9
  }

  /** A lower-case ASCII letter or anything that is not an ASCII letter. */
  predicate IsLowerCaseNameChar(c: char)
  {
    !('A' <= c <= 'Z')
  }

  /**
   * Conditions every header map the crate builds meets: field names in
   * lower case, value bytes all valid. (The crate further restricts names
   * to token characters; that is not stated here.) `Parse` is specified
   * for every map, well-formed or not.
   */
  predicate WellFormed(m: HeaderMap)
  {
    forall k :: 0 <= k < |m.fields| ==>
      (forall c :: 0 <= c < |m.fields[k].0| ==> IsLowerCaseNameChar(m.fields[k].0[c]))
      && (forall c :: 0 <= c < |m.fields[k].1.bytes| ==> IsValidValueByte(m.fields[k].1.bytes[c]))
  }

  /** The bytes `to_str` accepts: visible ASCII and horizontal tab. */
  predicate IsVisibleAscii(b: byte)
  {
    32 <= b < 127 || b == 9
  }

  /** Text all of whose characters are visible ASCII or tab. */
  predicate IsVisibleText(s: string)
  {
    forall k :: 0 <= k < |s| ==> (32 <= s[k] as int < 127 || s[k] == '\t')
  }

  /** The header value whose bytes are the (visible ASCII) characters of `s`. */
  function FromText(s: string): (v: HeaderValue)
    requires IsVisibleText(s)
    ensures |v.bytes| == |s|
    ensures forall k :: 0 <= k < |s| ==> v.bytes[k] as int == s[k] as int
  {
    HeaderValue(seq(|s|, k requires 0 <= k < |s| => s[k] as int as byte))
  }

  /**
   * `HeaderValue::to_str`: the value as text if every byte is visible ASCII
   * or tab, an error otherwise.
   */
  function ToStr(v: HeaderValue): (r: Result<string, ToStrError>)
    ensures r.Ok? <==> forall k :: 0 <= k < |v.bytes| ==> IsVisibleAscii(v.bytes[k])
    ensures r.Ok? ==> IsVisibleText(r.value) && FromText(r.value) == v
  {
    if forall k :: 0 <= k < |v.bytes| ==> IsVisibleAscii(v.bytes[k]) then
      var s := seq(|v.bytes|, k requires 0 <= k < |v.bytes| => v.bytes[k] as int as char);
      assert FromText(s).bytes == v.bytes;
      Ok(s)
    else
      Err(ToStrError)
  }

  /** Reading back a value built from visible text yields that text. */
  lemma ToStrFromText(s: string)
    requires IsVisibleText(s)
    ensures ToStr(FromText(s)) == Ok(s)
  {
    var v := FromText(s);
    assert forall k :: 0 <= k < |v.bytes| ==> IsVisibleAscii(v.bytes[k]);
    assert ToStr(v).value == s;
  }

  /**
   * `HeaderMap::get`: the value of the first field named `name`, or nothing
   * when no field has that name.
   */
  function Get(m: HeaderMap, name: string): (r: Option<HeaderValue>)
    ensures r.None? <==> forall k :: 0 <= k < |m.fields| ==> m.fields[k].0 != name
    ensures r.Some? ==> exists k :: 0 <= k < |m.fields| && m.fields[k] == (name, r.value)
                                    && forall j :: 0 <= j < k ==> m.fields[j].0 != name
    decreases |m.fields|
  {
    if |m.fields| == 0 then None
    else if m.fields[0].0 == name then Some(m.fields[0].1)
    else
      var r := Get(HeaderMap(m.fields[1..]), name);
      if r.Some? then FirstFieldShifted(m, name, r.value); r else r
  }

  /**
   * A first field named `name` found among all fields but the first, when
   * the first has another name, is the first such field of the whole map.
   */
  lemma FirstFieldShifted(m: HeaderMap, name: string, v: HeaderValue)
    requires |m.fields| > 0 && m.fields[0].0 != name
    requires exists k :: 0 <= k < |m.fields| - 1 && m.fields[1..][k] == (name, v)
                         && forall j :: 0 <= j < k ==> m.fields[1..][j].0 != name
    ensures exists k :: 0 <= k < |m.fields| && m.fields[k] == (name, v)
                        && forall j :: 0 <= j < k ==> m.fields[j].0 != name
  {
    var k :| 0 <= k < |m.fields| - 1 && m.fields[1..][k] == (name, v)
             && forall j :: 0 <= j < k ==> m.fields[1..][j].0 != name;
    assert m.fields[k + 1] == (name, v);
  }

  /** Fields appended after a field named `name` do not change what `Get` finds. */
  lemma {:induction false} GetIgnoresLaterFields(m: HeaderMap, more: seq<(string, HeaderValue)>, name: string)
    requires Get(m, name).Some?
    ensures Get(HeaderMap(m.fields + more), name) == Get(m, name)
    decreases |m.fields|
  {
    if m.fields[0].0 != name {
      assert (m.fields + more)[1..] == m.fields[1..] + more;
      GetIgnoresLaterFields(HeaderMap(m.fields[1..]), more, name);
    }
  }
}
