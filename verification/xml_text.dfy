/** The text clean-up both importers apply to an XML file before parsing it: every comment
    block is removed with the non-greedy pattern `<!--[\s\S]*?-->` (global replace), then
    surrounding white space is trimmed. Comment syntax follows section 2.5 of the W3C XML 1.0
    recommendation: a comment opens with `<!--` and closes at the next `-->`. */
module XmlText {
  import opened Wrappers

  /** A comment opener `<!--` starts at position `i`. */
  predicate OpensAt(s: string, i: int) {
    0 <= i && i + 4 <= |s| && s[i] == '<' && s[i + 1] == '!' && s[i + 2] == '-' && s[i + 3] == '-'
  }

  /** A comment closer `-->` starts at position `j`. */
  predicate ClosesAt(s: string, j: int) {
    0 <= j && j + 3 <= |s| && s[j] == '-' && s[j + 1] == '-' && s[j + 2] == '>'
  }

  /** `s` holds a complete comment: an opener and, after it, a closer. */
  predicate HasComment(s: string) {
    exists i, j :: 0 <= i < |s| && 0 <= j < |s| && i + 4 <= j && OpensAt(s, i) && ClosesAt(s, j)
  }

  /** Position of the first `-->` at or after position `j`: where the lazy `[\s\S]*?` stops. */
  function FirstCloseFrom(s: string, j: nat): (r: Option<nat>)
    ensures r.Some? ==> j <= r.value && ClosesAt(s, r.value)
    ensures r.Some? ==> forall k :: j <= k < r.value ==> !ClosesAt(s, k)
    ensures r.None? ==> forall k :: j <= k ==> !ClosesAt(s, k)
    decreases |s| - j
  {
    if j + 3 > |s| then None
    else if ClosesAt(s, j) then Some(j)
    else FirstCloseFrom(s, j + 1)
  }

  /** What `s.replace(/<!--[\s\S]*?-->/g, '')` produces from the scan position `i` on: a match
      starts at an opener that has a closer after it and ends at the nearest such closer; the
      scan resumes right after the match, and any other character is kept. */
  function StripFrom(s: string, i: nat): (r: string)
    requires i <= |s|
    ensures |r| <= |s| - i
    decreases |s| - i
  {
    if i == |s| then []
    else if OpensAt(s, i) && FirstCloseFrom(s, i + 4).Some? then
      StripFrom(s, FirstCloseFrom(s, i + 4).value + 3)
    else [s[i]] + StripFrom(s, i + 1)
  }

  /** `s.replace(/<!--[\s\S]*?-->/g, '')`. */
  function StripComments(s: string): (r: string)
    ensures |r| <= |s|
  {
    StripFrom(s, 0)
  }

  /** From a position after which no comment is complete, the text is kept as it is. */
  lemma {:induction false} StripFromWithoutComment(s: string, i: nat)
    requires i <= |s|
    requires forall p, q :: i <= p && p + 4 <= q && OpensAt(s, p) ==> !ClosesAt(s, q)
    ensures StripFrom(s, i) == s[i..]
    decreases |s| - i
  {
    if i < |s| {
      if OpensAt(s, i) && FirstCloseFrom(s, i + 4).Some? {
        assert false;
      }
      StripFromWithoutComment(s, i + 1);
      assert s[i..] == [s[i]] + s[i + 1..];
    }
  }

  /** Text without a complete comment is left exactly as it is. */
  lemma StripWithoutComment(s: string)
    requires !HasComment(s)
    ensures StripComments(s) == s
  {
    StripFromWithoutComment(s, 0);
  }

  /** Characters up to the next opener are kept as they are. */
  lemma {:induction false} StripFromKeeps(s: string, i: nat, m: nat)
    requires i <= m <= |s|
    requires forall p :: i <= p < m ==> !OpensAt(s, p)
    ensures StripFrom(s, i) == s[i..m] + StripFrom(s, m)
    decreases m - i
  {
    if i < m {
      StripFromKeeps(s, i + 1, m);
      var rest := StripFrom(s, m);
      calc {
        StripFrom(s, i);
        [s[i]] + StripFrom(s, i + 1);
        [s[i]] + (s[i + 1..m] + rest);
        { assert s[i..m] == [s[i]] + s[i + 1..m]; }
        s[i..m] + rest;
      }
    }
  }

  /** The leftmost complete comment, opening at `m` and closing at the nearest closer `e`, is
      removed; the text before it is kept and the scan resumes right after the closer. */
  lemma StripLeftmostComment(s: string, m: nat, e: nat)
    requires OpensAt(s, m)
    requires forall p :: 0 <= p < m ==> !OpensAt(s, p)
    requires FirstCloseFrom(s, m + 4) == Some(e)
    ensures StripComments(s) == s[..m] + StripFrom(s, e + 3)
  {
    StripFromKeeps(s, 0, m);
  }

  /** Removal is a single pass: text that closes up around a removed comment is not scanned
      again, so the output can still hold a complete comment. */
  lemma StripIsSinglePass(s: string)
    requires s == "<!<!---->---->"
    ensures StripComments(s) == "<!---->"
    ensures HasComment(StripComments(s))
  {
    assert !OpensAt(s, 0) && !OpensAt(s, 1) && OpensAt(s, 2);
    assert FirstCloseFrom(s, 6) == Some(6);
    StripLeftmostComment(s, 2, 6);
    NoOpenerAfter(s, 9);
    StripFromWithoutComment(s, 9);
    var r := s[..2] + s[9..];
    assert r == "<!---->";
    assert OpensAt(r, 0) && ClosesAt(r, 4);
  }

  /** Past the last `<` no opener can start. */
  lemma NoOpenerAfter(s: string, i: nat)
    requires forall k :: i <= k < |s| ==> s[k] != '<'
    ensures forall p :: i <= p ==> !OpensAt(s, p)
  {
    forall p | i <= p ensures !OpensAt(s, p) {
    }
  }

  /** The white space `String.prototype.trim` removes: the ECMAScript WhiteSpace and
      LineTerminator characters. */
  predicate IsJsSpace(c: char) {
    c == '\t' || c == '\n' || c == '\U{000B}' || c == '\U{000C}' || c == '\r' || c == ' '
    || c == '\U{00A0}' || c == '\U{1680}' || ('\U{2000}' <= c <= '\U{200A}')
    || c == '\U{2028}' || c == '\U{2029}' || c == '\U{202F}' || c == '\U{205F}'
    || c == '\U{3000}' || c == '\U{FEFF}'
  }

  /** Number of white-space characters at the front of `s`. */
  function LeadingSpaces(s: string): (n: nat)
    ensures n <= |s|
    ensures forall k :: 0 <= k < n ==> IsJsSpace(s[k])
    ensures n < |s| ==> !IsJsSpace(s[n])
  {
    if s != [] && IsJsSpace(s[0]) then 1 + LeadingSpaces(s[1..]) else 0
  }

  /** Number of white-space characters at the end of `s`. */
  function TrailingSpaces(s: string): (n: nat)
    ensures n <= |s|
    ensures forall k :: |s| - n <= k < |s| ==> IsJsSpace(s[k])
    ensures n < |s| ==> !IsJsSpace(s[|s| - 1 - n])
  {
    if s != [] && IsJsSpace(s[|s| - 1]) then 1 + TrailingSpaces(s[..|s| - 1]) else 0
  }

  /** `s.trim()`: the slice of `s` that remains once white space is removed at both ends. */
  function Trim(s: string): (r: string)
    ensures r == [] <==> LeadingSpaces(s) == |s|
    ensures r != [] ==> !IsJsSpace(r[0]) && !IsJsSpace(r[|r| - 1])
    ensures LeadingSpaces(s) + |r| <= |s|
    ensures r == s[LeadingSpaces(s)..LeadingSpaces(s) + |r|]
    ensures forall k :: LeadingSpaces(s) + |r| <= k < |s| ==> IsJsSpace(s[k])
  {
    var i := LeadingSpaces(s);
    if i == |s| then []
    else
      var n := TrailingSpaces(s);
      s[i..|s| - n]
  }

  lemma TrimIdempotent(s: string)
    ensures Trim(Trim(s)) == Trim(s)
  {
    var r := Trim(s);
    if r != [] {
      assert LeadingSpaces(r) == 0;
      assert TrailingSpaces(r) == 0;
    }
  }

  /** The clean-up `parseXmlFile` applies before handing the text to the XML parser. */
  function CleanXml(s: string): (r: string)
    ensures |r| <= |s|
  {
    Trim(StripComments(s))
  }

  /** Text without any comment opener is changed only by trimming. */
  lemma CleanWithoutOpener(s: string)
    requires forall i :: 0 <= i < |s| ==> !OpensAt(s, i)
    ensures CleanXml(s) == Trim(s)
  {
    StripWithoutComment(s);
  }

  /** A comment that is the only complete one in the text disappears, opener to closer. */
  lemma CleanRemovesComment(s: string, m: nat, e: nat)
    requires OpensAt(s, m)
    requires forall p :: 0 <= p < m ==> !OpensAt(s, p)
    requires FirstCloseFrom(s, m + 4) == Some(e)
    requires forall p, q :: e + 3 <= p && p + 4 <= q && OpensAt(s, p) ==> !ClosesAt(s, q)
    ensures CleanXml(s) == Trim(s[..m] + s[e + 3..])
  {
    StripLeftmostComment(s, m, e);
    StripFromWithoutComment(s, e + 3);
  }
}
