/**
 * The part of JavaScript's value model that the validators look at:
 * untrusted JSON-ish values, truthiness and `String.prototype.trim`.
 */
module JsValues {

  /** A value as it can arrive in a request body or be passed to a validator. */
  datatype JsValue =
    | JsString(s: string)
    | JsNumber(x: real)                 // integer or not; NaN and the infinities are not represented
    | JsBool(b: bool)
    | JsNull
    | JsUndefined
    | JsObject(fields: map<string, JsValue>)
    | JsArray(elems: seq<JsValue>)

  /** Property access `o[key]`: an absent key reads as `undefined`. */
  function Field(fields: map<string, JsValue>, key: string): (v: JsValue)
    ensures key !in fields ==> v == JsUndefined
    ensures key in fields ==> v == fields[key]
  {
    if key in fields then fields[key] else JsUndefined
  }

  /** JavaScript truthiness: `''`, `0`, `false`, `null` and `undefined` are falsy, everything else here is truthy. */
  predicate Truthy(v: JsValue)
    ensures !Truthy(v) <==> v == JsString("") || v == JsNumber(0.0) || v == JsBool(false) || v == JsNull || v == JsUndefined
  {
    match v
    case JsString(s) => s != ""
    case JsNumber(x) => x != 0.0
    case JsBool(b) => b
    case JsNull => false
    case JsUndefined => false
    case JsObject(_) => true
    case JsArray(_) => true
  }

  /**
   * The characters `trim` removes: ECMAScript WhiteSpace (tab, vertical tab, form feed, space,
   * no-break space, byte order mark and the other Unicode space separators) and LineTerminator
   * (line feed, carriage return, line and paragraph separator).
   */
  predicate IsWhitespace(c: char)
  {
    || c == ' ' || c == '\t' || c == '\n' || c == '\r'
    || c == '\U{000B}' || c == '\U{000C}'
    || c == '\U{00A0}' || c == '\U{1680}'
    || ('\U{2000}' <= c <= '\U{200A}')
    || c == '\U{2028}' || c == '\U{2029}'
    || c == '\U{202F}' || c == '\U{205F}' || c == '\U{3000}' || c == '\U{FEFF}'
  }

  predicate AllWhitespace(s: string)
  {
    forall i | 0 <= i < |s| :: IsWhitespace(s[i])
  }

  /** The position of the first non-whitespace character of `s` at or after `k`, or `|s|`. */
  function SkipForward(s: string, k: nat): (j: nat)
    requires k <= |s|
    ensures k <= j <= |s|
    ensures forall m | k <= m < j :: IsWhitespace(s[m])
    ensures j < |s| ==> !IsWhitespace(s[j])
    decreases |s| - k
  {
    if k < |s| && IsWhitespace(s[k]) then SkipForward(s, k + 1) else k
  }

  /** The end of `s[lo..k]` once the whitespace at its end is dropped. */
  function SkipBackward(s: string, lo: nat, k: nat): (j: nat)
    requires lo <= k <= |s|
    ensures lo <= j <= k
    ensures forall m | j <= m < k :: IsWhitespace(s[m])
    ensures j > lo ==> !IsWhitespace(s[j - 1])
    decreases k
  {
    if k > lo && IsWhitespace(s[k - 1]) then SkipBackward(s, lo, k - 1) else k
  }

  /** `s.trim()`: the leading whitespace skipped, then the trailing whitespace of what is left. */
  function Trim(s: string): (r: string)
    ensures |r| <= |s|
  {
    var i := SkipForward(s, 0);
    s[i..SkipBackward(s, i, |s|)]
  }

  /**
   * Trimming keeps the contiguous middle part `s[i..j]` of `s`, drops only whitespace
   * around it, and leaves no whitespace at either end.
   */
  lemma TrimShape(s: string)
    ensures var i := SkipForward(s, 0); var j := SkipBackward(s, i, |s|);
      && Trim(s) == s[i..j]
      && AllWhitespace(s[..i]) && AllWhitespace(s[j..])
      && (i < j ==> !IsWhitespace(s[i]) && !IsWhitespace(s[j - 1]))
  {
    var i := SkipForward(s, 0);
    var j := SkipBackward(s, i, |s|);
    WhitespaceSlice(s, 0, i);
    WhitespaceSlice(s, j, |s|);
  }

  /** A run of whitespace positions, as a slice. */
  lemma WhitespaceSlice(s: string, lo: nat, hi: nat)
    requires lo <= hi <= |s|
    requires forall m | lo <= m < hi :: IsWhitespace(s[m])
    ensures AllWhitespace(s[lo..hi])
  {
    forall m | 0 <= m < hi - lo ensures IsWhitespace(s[lo..hi][m]) {
      assert s[lo..hi][m] == s[lo + m];
    }
  }

  /** The trimmed string is empty or starts and ends with non-whitespace. */
  lemma TrimmedEnds(s: string)
    ensures var r := Trim(s); r == [] || (!IsWhitespace(r[0]) && !IsWhitespace(r[|r| - 1]))
  {
    var i := SkipForward(s, 0);
    var j := SkipBackward(s, i, |s|);
    var r := Trim(s);
    if r != [] {
      assert r[0] == s[i] && r[|r| - 1] == s[j - 1];
    }
  }

  /** A trimmed string is empty exactly when the original consists of whitespace only. */
  lemma TrimEmptyIff(s: string)
    ensures Trim(s) == [] <==> AllWhitespace(s)
  {
    var i := SkipForward(s, 0);
    var j := SkipBackward(s, i, |s|);
    if i < |s| {
      // `s[i]` is not whitespace, and the backward scan stops before dropping it
      assert j > i;
    }
  }

  /** When `s` does not start or end with whitespace, trimming it changes nothing. */
  lemma TrimClean(s: string)
    requires s == [] || (!IsWhitespace(s[0]) && !IsWhitespace(s[|s| - 1]))
    ensures Trim(s) == s
  {
    assert SkipForward(s, 0) == 0;
    assert s[0..|s|] == s;
  }

  /** `trim` is idempotent. */
  lemma TrimIdempotent(s: string)
    ensures Trim(Trim(s)) == Trim(s)
  {
    TrimmedEnds(s);
    TrimClean(Trim(s));
  }

  /** Whitespace around a core with non-whitespace ends is exactly what `trim` removes. */
  lemma TrimOf(s: string, pre: string, core: string, post: string)
    requires s == pre + core + post && AllWhitespace(pre) && AllWhitespace(post)
    requires core == [] || (!IsWhitespace(core[0]) && !IsWhitespace(core[|core| - 1]))
    ensures Trim(s) == core
  {
    if core == [] {
      assert forall m | 0 <= m < |s| :: s[m] == if m < |pre| then pre[m] else post[m - |pre|];
      TrimEmptyIff(s);
    } else {
      var lo, hi := |pre|, |pre| + |core|;
      assert s[lo] == core[0] && s[hi - 1] == core[|core| - 1];
      assert forall m | 0 <= m < lo :: s[m] == pre[m];
      assert forall m | hi <= m < |s| :: s[m] == post[m - hi];
      var i := SkipForward(s, 0);
      assert i == lo;
      var j := SkipBackward(s, i, |s|);
      assert j == hi;
      assert s[lo..hi] == core;
    }
  }

  /** Extra whitespace on either side does not change what `trim` returns. */
  lemma TrimIgnoresPadding(s: string, pre: string, post: string)
    requires AllWhitespace(pre) && AllWhitespace(post)
    ensures Trim(pre + s + post) == Trim(s)
  {
    var i := SkipForward(s, 0);
    var j := SkipBackward(s, i, |s|);
    var left, core, right := s[..i], s[i..j], s[j..];
    TrimShape(s);
    TrimmedEnds(s);
    assert core == Trim(s);
    ConcatWhitespace(pre, left);
    ConcatWhitespace(right, post);
    assert s == left + core + right;
    Regroup(pre, left, core, right, post);
    TrimOf(pre + s + post, pre + left, core, right + post);
  }

  lemma ConcatWhitespace(a: string, b: string)
    requires AllWhitespace(a) && AllWhitespace(b)
    ensures AllWhitespace(a + b)
  {
    forall m | 0 <= m < |a + b| ensures IsWhitespace((a + b)[m]) {
      if m >= |a| {
        assert (a + b)[m] == b[m - |a|];
      }
    }
  }

  lemma Regroup(p: string, x: string, y: string, z: string, q: string)
    ensures p + (x + y + z) + q == (p + x) + y + (z + q)
  {
  }
}
