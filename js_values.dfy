/**
 * The JavaScript values the user service handles: strings as UTF-16 code
 * units, plain objects as maps from property names to string values, and the
 * promises returned by store writes.
 */
module JsValues {

  /** One UTF-16 code unit; a JavaScript string is a sequence of these. */
  type CodeUnit = x: int | 0 <= x < 0x1_0000

  type JsString = seq<CodeUnit>

  /** Store keys are strings generated by the store. */
  type Key = JsString

  /**
   * A plain object whose own properties all hold strings: a stored user
   * record, a push/update payload, or the caller's `user` argument.
   * A property that is absent reads as `undefined`.
   */
  type Record = map<string, JsString>

  /** `undefined` or a value. */
  datatype Option<T> = None | Some(value: T)

  /** Outcome of a store write: the promise resolves with a value or rejects. */
  datatype Promise<T> = Resolved(value: T) | Rejected

  const KeyField := "$key"
  const UsernameField := "username"
  const PasswordField := "password"
  const RoleField := "role"
  const NameField := "name"
  const PhoneField := "phone"

  /** Property access `obj.f`: `undefined` when the property is absent. */
  function Lookup(obj: Record, f: string): (v: Option<JsString>)
    ensures v.Some? <==> f in obj
    ensures v.Some? ==> v.value == obj[f]
  {
    if f in obj then Some(obj[f]) else None
  }

  /** `String.fromCharCode(code)`: the code is reduced modulo 2^16 (ToUint16). */
  function FromCharCode(code: int): (u: CodeUnit)
    ensures 0 <= code < 0x1_0000 ==> u == code
    ensures (u - code) % 0x1_0000 == 0
  {
    code % 0x1_0000
  }

  /** A string literal whose characters all lie in the Basic Multilingual Plane, as code units. */
  function Text(s: string): (t: JsString)
    requires forall i :: 0 <= i < |s| ==> (s[i] as int) < 0x1_0000
    ensures |t| == |s|
    ensures forall i :: 0 <= i < |s| ==> t[i] == s[i] as int
  {
    if s == [] then [] else [s[0] as int] + Text(s[1..])
  }

  /** The text a template literal produces for `undefined`. */
  const Undefined: JsString := Text("undefined")

  /** The role every approved signup receives. */
  const Member: JsString := Text("member")
}
