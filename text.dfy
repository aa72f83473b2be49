/**
 * Character classes and substring search as JavaScript defines them, over
 * strings of Unicode scalar values.
 */
module Text {

  /** The class `\s` of JavaScript regular expressions, which is also the set
      `String.prototype.trim` removes: the ECMAScript WhiteSpace code points
      (tab, vertical tab, form feed, no-break space, byte order mark and the
      Unicode category Zs) and the LineTerminator code points. */
  predicate IsWs(c: char) {
    || ('\t' <= c <= '\r') || c == ' ' || c == '\U{A0}' || c == '\U{1680}'
    || ('\U{2000}' <= c <= '\U{200A}') || ('\U{2028}' <= c <= '\U{2029}')
    || c == '\U{202F}' || c == '\U{205F}' || c == '\U{3000}' || c == '\U{FEFF}'
  }

  /** The characters the regular-expression wildcard `.` does not match. */
  predicate IsLineTerminator(c: char) {
    c == '\n' || c == '\r' || c == '\U{2028}' || c == '\U{2029}'
  }

  /** The ASCII letters and digits, `[a-zA-Z0-9]`. */
  predicate IsAlnum(c: char) {
    ('a' <= c <= 'z') || ('A' <= c <= 'Z') || ('0' <= c <= '9')
  }

  /** `w` occurs in `s` starting at index `k`. */
  predicate OccursAt(s: string, w: string, k: int) {
    0 <= k && k + |w| <= |s| && s[k..k + |w|] == w
  }

  /** `s.includes(w)`, as a left-to-right scan from index `k`. */
  function IncludesFrom(s: string, w: string, k: nat): (r: bool)
    decreases |s| - k
    ensures r <==> exists i :: k <= i && OccursAt(s, w, i)
  {
    if OccursAt(s, w, k) then true
    else if k + |w| >= |s| then
      assert forall i :: k <= i && OccursAt(s, w, i) ==> i == k;
      false
    else IncludesFrom(s, w, k + 1)
  }

  /** `s.includes(w)`: `w` occurs somewhere in `s`. */
  function Includes(s: string, w: string): (r: bool)
    ensures r <==> exists i :: OccursAt(s, w, i)
  {
    IncludesFrom(s, w, 0)
  }
}
