/**
 * The JavaScript view of untrusted request bodies: a decoded JSON value, the
 * truthiness test behind `!x`, property reads, `String.prototype.trim` and
 * `String.prototype.length` (which counts UTF-16 code units).
 */
module JsValue {
  import opened Outcomes

  /** A decoded JSON value; `Undefined` stands for a property that is not present. */
  datatype Value =
    | Undefined
    | Null
    | Bool(b: bool)
    | Num(n: real)
    | Str(s: string)
    | Arr(items: seq<Value>)
    | Obj(fields: map<string, Value>)

  /** JavaScript's ToBoolean: `undefined`, `null`, `false`, `0` and `""` are falsy; everything else is truthy. */
  function Truthy(v: Value): (b: bool)
    ensures !b <==> v in {Undefined, Null, Bool(false), Num(0.0), Str("")}
  {
    match v
    case Undefined => false
    case Null => false
    case Bool(b) => b
    case Num(n) => n != 0.0
    case Str(s) => s != ""
    case Arr(_) => true
    case Obj(_) => true
  }

  /**
   * The value of `v[key]` once `v` is known not to be `undefined` or `null`.
   * Only the keys of a request body are read (`requestorName`, `itemRequested`,
   * `id`, `status`); no primitive or array prototype carries any of them.
   */
  function Field(v: Value, key: string): Value {
    if v.Obj? && key in v.fields then v.fields[key] else Undefined
  }

  /** `v[key]`, or `None` for the TypeError thrown when `v` is `undefined` or `null`. */
  function Property(v: Value, key: string): Option<Value> {
    if v.Undefined? || v.Null? then None else Some(Field(v, key))
  }

  /** The WhiteSpace and LineTerminator code points of ECMAScript, which `trim` removes. */
  predicate IsJsWhitespace(c: char) {
    var n := c as int;
    || n == 0x09 || n == 0x0A || n == 0x0B || n == 0x0C || n == 0x0D
    || n == 0x20 || n == 0xA0 || n == 0x1680
    || (0x2000 <= n <= 0x200A)
    || n == 0x2028 || n == 0x2029 || n == 0x202F || n == 0x205F
    || n == 0x3000 || n == 0xFEFF
  }

  /** A string made of whitespace only (the empty string included). */
  predicate IsBlank(s: string) {
    forall i | 0 <= i < |s| :: IsJsWhitespace(s[i])
  }

  /** `r` occurs in `s` starting at index `a`. */
  predicate InfixAt(r: string, s: string, a: int) {
    0 <= a <= |s| - |r| && r == s[a..a + |r|]
  }

  /** Drops leading whitespace: the result is a suffix of `s` that does not start with whitespace. */
  function TrimStart(s: string): (r: string)
    ensures |r| <= |s| && r == s[|s| - |r|..]
    ensures forall i | 0 <= i < |s| - |r| :: IsJsWhitespace(s[i])
    ensures r != [] ==> !IsJsWhitespace(r[0])
    decreases |s|
  {
    if s != [] && IsJsWhitespace(s[0]) then TrimStart(s[1..]) else s
  }

  /** Drops trailing whitespace: the result is a prefix of `s` that does not end with whitespace. */
  function TrimEnd(s: string): (r: string)
    ensures |r| <= |s| && r == s[..|r|]
    ensures forall i | |r| <= i < |s| :: IsJsWhitespace(s[i])
    ensures r != [] ==> !IsJsWhitespace(r[|r| - 1])
    decreases |s|
  {
    if s != [] && IsJsWhitespace(s[|s| - 1]) then TrimEnd(s[..|s| - 1]) else s
  }

  /** `r` occurs in `s` at index `a`, and everything of `s` before and after that occurrence is whitespace. */
  predicate TrimmedAt(r: string, s: string, a: int) {
    && InfixAt(r, s, a)
    && (forall i | 0 <= i < a :: IsJsWhitespace(s[i]))
    && (forall i | a + |r| <= i < |s| :: IsJsWhitespace(s[i]))
  }

  /**
   * `s.trim()`: an infix of `s` that neither starts nor ends with whitespace,
   * with only whitespace removed around it; it is empty exactly when `s` is
   * blank.
   */
  function Trim(s: string): (r: string)
    ensures exists a :: TrimmedAt(r, s, a)
    ensures r != [] ==> !IsJsWhitespace(r[0]) && !IsJsWhitespace(r[|r| - 1])
    ensures r == [] <==> IsBlank(s)
  {
    var t := TrimStart(s);
    var r := TrimEnd(t);
    TrimKeepsInfix(s, t, r);
    TrimmedBlankIff(s, r, |s| - |t|);
    r
  }

  /**
   * Helper for Trim: dropping a whitespace prefix (leaving `t`) and then a
   * whitespace suffix (leaving `r`) keeps an infix and removes whitespace only.
   */
  lemma TrimKeepsInfix(s: string, t: string, r: string)
    requires |t| <= |s| && t == s[|s| - |t|..]
    requires forall i | 0 <= i < |s| - |t| :: IsJsWhitespace(s[i])
    requires |r| <= |t| && r == t[..|r|]
    requires forall i | |r| <= i < |t| :: IsJsWhitespace(t[i])
    ensures TrimmedAt(r, s, |s| - |t|)
  {
    var a := |s| - |t|;
    assert r == s[a..a + |r|];
    forall i | a + |r| <= i < |s| ensures IsJsWhitespace(s[i]) {
      assert s[i] == t[i - a];
    }
  }

  /** Helper for Trim: a trimmed infix that is empty or starts with non-whitespace is empty exactly when `s` is blank. */
  lemma TrimmedBlankIff(s: string, r: string, a: int)
    requires TrimmedAt(r, s, a)
    requires r != [] ==> !IsJsWhitespace(r[0])
    ensures r == [] <==> IsBlank(s)
  {
    if r == [] {
      forall i | 0 <= i < |s| ensures IsJsWhitespace(s[i]) {
        if i >= a {
          assert a + |r| <= i;
        }
      }
    } else {
      assert s[a] == r[0];
    }
  }

  /** The positions of the characters outside the Basic Multilingual Plane, which UTF-16 writes as surrogate pairs. */
  function AstralPositions(s: string): set<nat> {
    set i: nat | i < |s| && s[i] as int >= 0x1_0000
  }

  /**
   * `s.length`: UTF-16 code units, one per character plus one more for each
   * character outside the Basic Multilingual Plane.
   */
  function Utf16Length(s: string): (n: nat)
    ensures n == |s| + |AstralPositions(s)|
    ensures |s| <= n <= 2 * |s|
    ensures (forall i | 0 <= i < |s| :: s[i] as int < 0x1_0000) ==> n == |s|
  {
    if s == [] then 0
    else
      AstralPositionsOfSnoc(s);
      Utf16Length(s[..|s| - 1]) + (if s[|s| - 1] as int < 0x1_0000 then 1 else 2)
  }

  /** Helper for Utf16Length: the last character adds its own position to the astral positions of the rest, or nothing. */
  lemma AstralPositionsOfSnoc(s: string)
    requires s != []
    ensures |AstralPositions(s)| ==
      |AstralPositions(s[..|s| - 1])| + (if s[|s| - 1] as int < 0x1_0000 then 0 else 1)
  {
    var init := s[..|s| - 1];
    assert AstralPositions(s) ==
      AstralPositions(init) + (if s[|s| - 1] as int < 0x1_0000 then {} else {|s| - 1});
  }
}
