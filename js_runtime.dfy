/**
 The small part of the JavaScript runtime that the upload widget and the
 persistence endpoint rely on: absent values, ECMAScript whitespace and
 `String.prototype.trim`, truthiness, the `||` fallback on strings, and the
 JSON library, which is kept uninterpreted.
 */
module JsRuntime {

  datatype Option<+T> = None | Some(value: T)

  /** The WhiteSpace and LineTerminator code points of ECMAScript: the set that
      `\s` matches in a regular expression and that `trim` removes. */
  predicate IsWhitespace(c: char)
  {
    if c <= ' ' then c == ' ' || '\t' <= c <= '\r'
    else '\U{A0}' <= c && IsWideWhitespace(c)
  }

  predicate IsWideWhitespace(c: char)
  {
    var n := c as int;
    n == 0xA0 || n == 0x1680 || (0x2000 <= n <= 0x200A)
    || n == 0x2028 || n == 0x2029 || n == 0x202F || n == 0x205F || n == 0x3000 || n == 0xFEFF
  }

  predicate AllWhitespace(s: string)
  {
    WhitespaceBetween(s, 0, |s|)
  }

  /** Every character of `s[lo..hi]` is whitespace. */
  predicate WhitespaceBetween(s: string, lo: int, hi: int)
    requires 0 <= lo && hi <= |s|
  {
    forall i :: lo <= i < hi ==> IsWhitespace(s[i])
  }

  /** No whitespace at either end: the shape `trim` leaves behind. */
  predicate Trimmed(s: string)
  {
    s == [] || (!IsWhitespace(s[0]) && !IsWhitespace(s[|s| - 1]))
  }

  /** Drops the leading whitespace; what remains is a suffix of `s`. */
  function TrimStart(s: string): (r: string)
    ensures |r| <= |s| && r == s[|s| - |r|..]
    ensures WhitespaceBetween(s, 0, |s| - |r|)
    ensures r == [] || !IsWhitespace(r[0])
  {
    if s != [] && IsWhitespace(s[0]) then TrimStart(s[1..]) else s
  }

  /** Drops the trailing whitespace; what remains is a prefix of `s`. */
  function TrimEnd(s: string): (r: string)
    ensures |r| <= |s| && r == s[..|r|]
    ensures WhitespaceBetween(s, |r|, |s|)
    ensures r == [] || !IsWhitespace(r[|r| - 1])
  {
    if s != [] && IsWhitespace(s[|s| - 1]) then TrimEnd(s[..|s| - 1]) else s
  }

  /** `String.prototype.trim`: the result has no whitespace at either end, is
      empty exactly when `s` is blank, and is `s` itself when `s` already has
      no whitespace at its ends. */
  function Trim(s: string): (r: string)
    ensures Trimmed(r) && |r| <= |s|
    ensures r == [] <==> AllWhitespace(s)
    ensures Trimmed(s) ==> r == s
  {
    var t := TrimStart(s);
    var r := TrimEnd(t);
    TrimParts(s, t, r);
    r
  }

  /** How `s` splits around the two halves of `trim`. */
  lemma TrimParts(s: string, t: string, r: string)
    requires |t| <= |s| && t == s[|s| - |t|..] && WhitespaceBetween(s, 0, |s| - |t|)
    requires t == [] || !IsWhitespace(t[0])
    requires |r| <= |t| && r == t[..|r|] && WhitespaceBetween(t, |r|, |t|)
    requires r == [] || !IsWhitespace(r[|r| - 1])
    ensures Trimmed(r)
    ensures var k := |s| - |t|; r == s[k..k + |r|] && WhitespaceBetween(s, k + |r|, |s|)
    ensures r == [] <==> AllWhitespace(s)
    ensures Trimmed(s) ==> r == s
  {
    TrimShift(s, t, r);
    var k := |s| - |t|;
    assert r == [] ==> t == [];
    assert r != [] ==> r[0] == s[k];
    assert |r| < |t| ==> t[|t| - 1] == s[|s| - 1];
  }

  /** A prefix `r` of a suffix `t` of `s`, with only whitespace after `r` in
      `t`, sits in `s` with only whitespace after it. */
  lemma TrimShift(s: string, t: string, r: string)
    requires |t| <= |s| && t == s[|s| - |t|..]
    requires |r| <= |t| && r == t[..|r|] && WhitespaceBetween(t, |r|, |t|)
    ensures var k := |s| - |t|; r == s[k..k + |r|] && WhitespaceBetween(s, k + |r|, |s|)
  {
    var k := |s| - |t|;
    forall i | k + |r| <= i < |s| ensures IsWhitespace(s[i]) {
      assert s[i] == t[i - k];
    }
  }

  /** Trimming whitespace-padded trimmed text gives back that text. */
  lemma TrimPadded(w1: string, b: string, w2: string)
    requires AllWhitespace(w1) && AllWhitespace(w2) && Trimmed(b)
    ensures Trim(w1 + b + w2) == b
  {
    var x := w1 + b + w2;
    if b == [] {
      assert x == w1 + w2;
      forall i | 0 <= i < |x| ensures IsWhitespace(x[i]) {
        if i < |w1| { assert x[i] == w1[i]; } else { assert x[i] == w2[i - |w1|]; }
      }
    } else {
      assert x == w1 + (b + w2);
      TrimStartPadded(w1, b + w2);
      TrimEndPadded(b, w2);
    }
  }

  lemma {:induction false} TrimStartPadded(w: string, t: string)
    requires AllWhitespace(w) && (t == [] || !IsWhitespace(t[0]))
    ensures TrimStart(w + t) == t
    decreases |w|
  {
    if w != [] {
      assert (w + t)[0] == w[0];
      assert (w + t)[1..] == w[1..] + t;
      TrimStartPadded(w[1..], t);
    }
  }

  lemma {:induction false} TrimEndPadded(t: string, w: string)
    requires AllWhitespace(w) && (t == [] || !IsWhitespace(t[|t| - 1]))
    ensures TrimEnd(t + w) == t
    decreases |w|
  {
    if w != [] {
      assert (t + w)[|t + w| - 1] == w[|w| - 1];
      assert (t + w)[..|t + w| - 1] == t + w[..|w| - 1];
      TrimEndPadded(t, w[..|w| - 1]);
    } else {
      assert t + w == t;
    }
  }

  /** `trim` cuts only whitespace, and only from the two ends: the result is
      a contiguous middle part of `s` with nothing but whitespace around it. */
  lemma TrimKeepsMiddle(s: string)
    ensures var k := |s| - |TrimStart(s)|;
            k + |Trim(s)| <= |s| && (forall i :: 0 <= i < |Trim(s)| ==> Trim(s)[i] == s[k + i])
            && WhitespaceBetween(s, 0, k) && WhitespaceBetween(s, k + |Trim(s)|, |s|)
  {
    var t := TrimStart(s);
    var r := TrimEnd(t);
    TrimShift(s, t, r);
  }

  /** Conversely, a trimmed middle part of `s` with only whitespace around it
      is what `trim` returns: the two properties above pin `trim` down. */
  lemma TrimUnique(s: string, k: nat, r: string)
    requires Trimmed(r) && k + |r| <= |s| && r == s[k..k + |r|]
    requires WhitespaceBetween(s, 0, k) && WhitespaceBetween(s, k + |r|, |s|)
    ensures Trim(s) == r
  {
    var w1, w2 := s[..k], s[k + |r|..];
    assert s == w1 + r + w2;
    forall i | 0 <= i < |w1| ensures IsWhitespace(w1[i]) {
      assert w1[i] == s[i];
    }
    forall i | 0 <= i < |w2| ensures IsWhitespace(w2[i]) {
      assert w2[i] == s[k + |r| + i];
    }
    TrimPadded(w1, r, w2);
  }

  /** A JavaScript value as the server sees it after the JSON body parser.
      `Undefined` is what reading a missing property yields. */
  datatype JsValue =
    | Undefined
    | Null
    | Bool(b: bool)
    | Number(x: real)
    | Str(s: string)
    | Array(items: seq<JsValue>)
    | Object(props: map<string, JsValue>)

  /** ECMAScript ToBoolean: undefined, null, false, 0 and "" are falsy,
      every other value (empty arrays and objects included) is truthy. */
  predicate Truthy(v: JsValue): (t: bool)
    ensures v in {Undefined, Null, Bool(false), Number(0.0), Str([])} ==> !t
    ensures v.Array? || v.Object? || v == Bool(true) ==> t
    ensures v.Str? && v.s != [] ==> t
  {
    match v
    case Undefined => false
    case Null => false
    case Bool(b) => b
    case Number(x) => x != 0.0
    case Str(s) => s != []
    case Array(_) => true
    case Object(_) => true
  }

  /** `v || fallback` for a value that is a string or absent. */
  function OrElse(v: Option<string>, fallback: string): (r: string)
    ensures v.Some? && v.value != [] ==> r == v.value
    ensures v.None? || v.value == [] ==> r == fallback
  {
    if v.Some? && v.value != [] then v.value else fallback
  }

  /** `JSON.parse` and `JSON.stringify(value, null, 2)`, left uninterpreted:
      `parses(s)` says whether `JSON.parse(s)` returns instead of throwing, and
      `pretty(s)` is the two-space indented serialisation of the value it
      returns. */
  datatype JsonLib = JsonLib(parses: string -> bool, pretty: string -> string)
}
