/** JavaScript's String.prototype.trim, as the validation schemas apply it. */
module Text {

  /** Whether `c` is removed by String.prototype.trim: an ECMAScript WhiteSpace
      code point (tab, vertical tab, form feed, space, no-break space, byte order
      mark or another Unicode "Zs" space) or a LineTerminator (LF, CR, LS, PS). */
  predicate IsWhitespace(c: char) {
    var n := c as int;
    n == 0x09 || n == 0x0A || n == 0x0B || n == 0x0C || n == 0x0D
    || n == 0x20 || n == 0xA0 || n == 0x1680 || (0x2000 <= n <= 0x200A)
    || n == 0x2028 || n == 0x2029 || n == 0x202F || n == 0x205F
    || n == 0x3000 || n == 0xFEFF
  }

  predicate AllWhitespace(s: string) {
    forall i :: 0 <= i < |s| ==> IsWhitespace(s[i])
  }

  /** A non-empty string with no whitespace at either end: what trimming leaves of a non-blank string. */
  predicate IsTrimmedNonEmpty(s: string) {
    s != [] && !IsWhitespace(s[0]) && !IsWhitespace(s[|s| - 1])
  }

  /** The length of the longest all-whitespace prefix of `s`. */
  function LeadingWhitespace(s: string): (n: nat)
    ensures n <= |s|
    ensures forall i :: 0 <= i < n ==> IsWhitespace(s[i])
    ensures n == |s| || !IsWhitespace(s[n])
  {
    if s != [] && IsWhitespace(s[0]) then 1 + LeadingWhitespace(s[1..]) else 0
  }

  /** The length of the longest all-whitespace suffix of `s`. */
  function TrailingWhitespace(s: string): (n: nat)
    ensures n <= |s|
    ensures forall i :: |s| - n <= i < |s| ==> IsWhitespace(s[i])
    ensures n == |s| || !IsWhitespace(s[|s| - 1 - n])
  {
    if s != [] && IsWhitespace(s[|s| - 1]) then 1 + TrailingWhitespace(s[..|s| - 1]) else 0
  }

  /** String.prototype.trim: the part of `s` between its longest all-whitespace
      prefix and its longest all-whitespace suffix. */
  function Trim(s: string): (r: string)
    ensures r == [] <==> AllWhitespace(s)
    ensures r != [] ==> IsTrimmedNonEmpty(r)
    ensures var lead := LeadingWhitespace(s);
              && lead + |r| <= |s| && r == s[lead..lead + |r|]
              && (forall i :: 0 <= i < lead ==> IsWhitespace(s[i]))
              && (forall i :: lead + |r| <= i < |s| ==> IsWhitespace(s[i]))
  {
    var lead, trail := LeadingWhitespace(s), TrailingWhitespace(s);
    if lead == |s| then []
    else
      assert !IsWhitespace(s[lead]);
      assert lead < |s| - trail;
      s[lead..|s| - trail]
  }

  /** Trimming leaves an already trimmed string as it is. */
  lemma TrimOfTrimmed(s: string)
    requires IsTrimmedNonEmpty(s)
    ensures Trim(s) == s
  {
  }

  /** Trimming twice is trimming once. */
  lemma TrimIdempotent(s: string)
    ensures Trim(Trim(s)) == Trim(s)
  {
  }
}
