/** The string primitives the search and the tag editor use:
    `String.prototype.trim`, `toLowerCase` (ASCII letters only here),
    `includes` and `Array.prototype.join`. */
module Text {

  type String = seq<char>

  /** The characters `trim` removes: ECMAScript's WhiteSpace (tab, vertical
      tab, form feed, space, no-break space, the byte-order mark and every
      Unicode space separator) and LineTerminator (LF, CR, the line separator
      and the paragraph separator). */
  predicate IsWhitespace(c: char)
  {
    c == '\t' || c == '\n' || c == '\U{000B}' || c == '\U{000C}' || c == '\r' || c == ' '
    || c == '\U{00A0}' || c == '\U{1680}' || ('\U{2000}' <= c <= '\U{200A}')
    || c == '\U{2028}' || c == '\U{2029}' || c == '\U{202F}' || c == '\U{205F}'
    || c == '\U{3000}' || c == '\U{FEFF}'
  }

  /** Length of the run of whitespace that starts `s`. */
  function LeadingSpace(s: String): (k: nat)
    ensures k <= |s|
    ensures forall i :: 0 <= i < k ==> IsWhitespace(s[i])
    ensures k < |s| ==> !IsWhitespace(s[k])
  {
    if s == [] || !IsWhitespace(s[0]) then 0 else 1 + LeadingSpace(s[1..])
  }

  /** Length of the run of whitespace that ends `s`. */
  function TrailingSpace(s: String): (k: nat)
    ensures k <= |s|
    ensures forall i :: |s| - k <= i < |s| ==> IsWhitespace(s[i])
    ensures k < |s| ==> !IsWhitespace(s[|s| - 1 - k])
  {
    if s == [] || !IsWhitespace(s[|s| - 1]) then 0 else 1 + TrailingSpace(s[..|s| - 1])
  }

  /** `r` is `s` with the first `k` characters and some final characters
      removed, all of them whitespace. */
  predicate StripsTo(s: String, k: nat, r: String)
  {
    k + |r| <= |s| && r == s[k..k + |r|]
    && (forall i :: 0 <= i < k ==> IsWhitespace(s[i]))
    && (forall i :: k + |r| <= i < |s| ==> IsWhitespace(s[i]))
  }

  /** `s.trim()`: `s` without its leading and trailing whitespace. */
  function Trim(s: String): (r: String)
    ensures r == [] <==> forall i :: 0 <= i < |s| ==> IsWhitespace(s[i])
    ensures IsTrimmed(r)
    ensures exists k: nat :: StripsTo(s, k, r)
  {
    var lead := LeadingSpace(s);
    if lead == |s| then
      assert StripsTo(s, 0, []);
      []
    else
      var trail := TrailingSpace(s);
      var r := s[lead..|s| - trail];
      assert StripsTo(s, lead, r);
      r
  }

  /** Neither begins nor ends with whitespace. */
  predicate IsTrimmed(s: String)
  {
    s == [] || (!IsWhitespace(s[0]) && !IsWhitespace(s[|s| - 1]))
  }

  /** Trimming is idempotent, and the trimmed strings are exactly its fixpoints. */
  lemma TrimFixpoints(s: String)
    ensures Trim(s) == s <==> IsTrimmed(s)
    ensures Trim(Trim(s)) == Trim(s)
  {
  }

  /** `toLowerCase` on one character; only `A`..`Z` are mapped. */
  function LowerChar(c: char): char
  {
    if 'A' <= c <= 'Z' then (c as int + 32) as char else c
  }

  function Lower(s: String): String
  {
    seq(|s|, i requires 0 <= i < |s| => LowerChar(s[i]))
  }

  /** `q` occurs in `s` at position `i`. */
  predicate MatchAt(s: String, q: String, i: nat)
  {
    i + |q| <= |s| && s[i..i + |q|] == q
  }

  /** `s.includes(q)`. */
  predicate Contains(s: String, q: String)
  {
    exists i: nat :: i <= |s| && MatchAt(s, q, i)
  }

  /** `xs.join(sep)`. */
  function Join(xs: seq<String>, sep: String): String
  {
    if xs == [] then []
    else if |xs| == 1 then xs[0]
    else xs[0] + sep + Join(xs[1..], sep)
  }

  // ---------------------------------------------------------------------
  // Lemmas

  /** Lowering keeps the length and maps every position. */
  lemma LowerAt(s: String)
    ensures |Lower(s)| == |s|
    ensures forall i :: 0 <= i < |s| ==> Lower(s)[i] == LowerChar(s[i])
  {
  }

  /** An occurrence survives lowering of both strings. */
  lemma ContainsLower(s: String, q: String)
    requires Contains(s, q)
    ensures Contains(Lower(s), Lower(q))
  {
    var i: nat :| i <= |s| && MatchAt(s, q, i);
    assert Lower(s)[i..i + |q|] == Lower(q) by {
      forall j | 0 <= j < |q| ensures Lower(s)[i..i + |q|][j] == Lower(q)[j] {
        assert s[i..i + |q|][j] == q[j];
      }
    }
    assert MatchAt(Lower(s), Lower(q), i);
  }

  /** Containment is transitive. */
  lemma ContainsTrans(s: String, t: String, q: String)
    requires Contains(s, t) && Contains(t, q)
    ensures Contains(s, q)
  {
    var i: nat :| i <= |s| && MatchAt(s, t, i);
    var j: nat :| j <= |t| && MatchAt(t, q, j);
    assert s[i + j..i + j + |q|] == q by {
      forall k | 0 <= k < |q| ensures s[i + j..i + j + |q|][k] == q[k] {
        assert s[i..i + |t|][j + k] == t[j + k];
        assert t[j..j + |q|][k] == q[k];
      }
    }
    assert MatchAt(s, q, i + j);
  }

  lemma ContainsConcat(a: String, b: String, q: String)
    requires Contains(a, q) || Contains(b, q)
    ensures Contains(a + b, q)
  {
    if Contains(a, q) {
      var i: nat :| i <= |a| && MatchAt(a, q, i);
      assert (a + b)[i..i + |q|] == a[i..i + |q|];
      assert MatchAt(a + b, q, i);
    } else {
      var i: nat :| i <= |b| && MatchAt(b, q, i);
      assert (a + b)[|a| + i..|a| + i + |q|] == b[i..i + |q|];
      assert MatchAt(a + b, q, |a| + i);
    }
  }

  lemma ContainsSelf(s: String)
    ensures Contains(s, s)
  {
    assert MatchAt(s, s, 0);
  }

  /** A string does not contain a different string of its own length. */
  lemma NotContainsSameLength(s: String, q: String)
    requires |s| == |q| && s != q
    ensures !Contains(s, q)
  {
  }

  /** Every joined element occurs in the joined string. */
  lemma {:induction false} JoinContains(xs: seq<String>, sep: String, x: String)
    requires x in xs
    ensures Contains(Join(xs, sep), x)
  {
    if |xs| == 1 {
      ContainsSelf(x);
    } else if xs[0] == x {
      ContainsSelf(x);
      ContainsConcat(x, sep, x);
      ContainsConcat(x + sep, Join(xs[1..], sep), x);
    } else {
      JoinContains(xs[1..], sep, x);
      ContainsConcat(xs[0] + sep, Join(xs[1..], sep), x);
    }
  }
}
