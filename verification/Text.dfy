/** Fields of text: splitting at a character, and decimal numbers. */
module Text {

  predicate Free(s: string, c: char) {
    c !in s
  }

  /** What comes before the first `c`, or all of it. */
  function Head(s: string, c: char): string {
    if s == "" || s[0] == c then "" else [s[0]] + Head(s[1..], c)
  }

  lemma {:induction false} HeadIsFirstField(a: string, c: char, rest: string)
    requires Free(a, c)
    ensures Head(a + [c] + rest, c) == a
  {
    if a != "" {
      assert (a + [c] + rest)[1..] == a[1..] + [c] + rest;
      HeadIsFirstField(a[1..], c, rest);
    }
  }

  /** Two texts that read the same have the same first field and the same rest. */
  lemma FieldsAgree(a: string, b: string, c: char, r: string, s: string)
    requires Free(a, c) && Free(b, c)
    requires a + [c] + r == b + [c] + s
    ensures a == b && r == s
  {
    HeadIsFirstField(a, c, r);
    HeadIsFirstField(b, c, s);
    assert (a + [c] + r)[|a| + 1..] == r;
    assert (b + [c] + s)[|b| + 1..] == s;
  }

  /** How often `c` occurs. */
  function Count(s: string, c: char): nat {
    if s == "" then 0 else (if s[0] == c then 1 else 0) + Count(s[1..], c)
  }

  lemma {:induction false} CountConcat(a: string, b: string, c: char)
    ensures Count(a + b, c) == Count(a, c) + Count(b, c)
  {
    if a == "" {
      assert a + b == b;
    } else {
      assert (a + b)[1..] == a[1..] + b;
      CountConcat(a[1..], b, c);
    }
  }

  lemma {:induction false} CountFree(s: string, c: char)
    ensures Count(s, c) == 0 <==> Free(s, c)
  {
    if s != "" {
      CountFree(s[1..], c);
    }
  }

  /** Around some occurrence of `c`. */
  lemma SplitAt(s: string, c: char) returns (x: string, y: string)
    requires !Free(s, c)
    ensures s == x + [c] + y
  {
    var i :| 0 <= i < |s| && s[i] == c;
    x, y := s[..i], s[i + 1..];
  }

  /** Decimal digits, most significant first. */
  function Decimal(n: nat): (s: string)
    ensures |s| > 0
  {
    if n < 10 then ['0' + n as char] else Decimal(n / 10) + ['0' + (n % 10) as char]
  }

  function DecimalValue(s: string): nat
    requires forall i :: 0 <= i < |s| ==> '0' <= s[i] <= '9'
  {
    if s == "" then 0 else 10 * DecimalValue(s[..|s| - 1]) + (s[|s| - 1] - '0') as nat
  }

  /** The text is digits that write the number. */
  predicate DecimalReadsAs(s: string, n: nat) {
    (forall i :: 0 <= i < |s| ==> '0' <= s[i] <= '9') && DecimalValue(s) == n
  }

  lemma {:induction false} DecimalReadsBack(n: nat)
    ensures forall i :: 0 <= i < |Decimal(n)| ==> '0' <= Decimal(n)[i] <= '9'
    ensures DecimalValue(Decimal(n)) == n
  {
    if n < 10 {
      assert Decimal(n)[..0] == "";
    } else {
      DecimalReadsBack(n / 10);
      assert Decimal(n)[..|Decimal(n)| - 1] == Decimal(n / 10);
    }
  }

  // ---------------------------------------------------------------------
  // White space
  // ---------------------------------------------------------------------

  /** The White_Space property of Unicode. */
  predicate IsWhite(c: char) {
    var n := c as int;
    9 <= n <= 13 || n == 0x20 || n == 0x85 || n == 0xA0 || n == 0x1680 || 0x2000 <= n <= 0x200A
    || n == 0x2028 || n == 0x2029 || n == 0x202F || n == 0x205F || n == 0x3000
  }

  const WHITE_SPACE :=
    "\t\n\U{000B}\U{000C}\r \U{0085}\U{00A0}\U{1680}\U{2000}\U{2001}\U{2002}\U{2003}\U{2004}\U{2005}\U{2006}"
    + "\U{2007}\U{2008}\U{2009}\U{200A}\U{2028}\U{2029}\U{202F}\U{205F}\U{3000}"

  /** Exactly the listed characters are white. */
  lemma WhiteSpaceIsListed(c: char)
    ensures IsWhite(c) <==> c in WHITE_SPACE
  {
    assert IsWhite(c) ==> c in WHITE_SPACE;
  }

  function TrimStart(s: string): (r: string) {
    if s != "" && IsWhite(s[0]) then TrimStart(s[1..]) else s
  }

  function TrimEnd(s: string): (r: string) {
    if s != "" && IsWhite(s[|s| - 1]) then TrimEnd(s[..|s| - 1]) else s
  }

  function Trim(s: string): string {
    TrimEnd(TrimStart(s))
  }

  /** No white space at either end. */
  predicate Trimmed(s: string) {
    s == "" || (!IsWhite(s[0]) && !IsWhite(s[|s| - 1]))
  }

  lemma {:induction false} TrimStartStarts(s: string)
    ensures TrimStart(s) == "" || !IsWhite(TrimStart(s)[0])
    ensures |TrimStart(s)| <= |s| && TrimStart(s) == s[|s| - |TrimStart(s)|..]
  {
    if s != "" && IsWhite(s[0]) {
      TrimStartStarts(s[1..]);
    }
  }

  lemma {:induction false} TrimEndEnds(s: string)
    ensures TrimEnd(s) <= s
    ensures TrimEnd(s) == "" || !IsWhite(TrimEnd(s)[|TrimEnd(s)| - 1])
  {
    if s != "" && IsWhite(s[|s| - 1]) {
      TrimEndEnds(s[..|s| - 1]);
    }
  }

  /** Trimming yields trimmed text, made of characters of the original. */
  lemma TrimTrims(s: string)
    ensures Trimmed(Trim(s))
    ensures forall c :: c in Trim(s) ==> c in s
  {
    TrimStartStarts(s);
    TrimEndEnds(TrimStart(s));
  }

  lemma TrimIsIdentity(s: string)
    ensures Trim(s) == s <==> Trimmed(s)
  {
    if Trim(s) == s {
      TrimTrims(s);
    }
  }

  predicate Blank(s: string) {
    forall i :: 0 <= i < |s| ==> IsWhite(s[i])
  }

  lemma {:induction false} TrimStartBlanks(blanks: string, s: string)
    requires Blank(blanks)
    ensures TrimStart(blanks + s) == TrimStart(s)
  {
    if blanks == "" {
      assert blanks + s == s;
    } else {
      assert (blanks + s)[1..] == blanks[1..] + s;
      TrimStartBlanks(blanks[1..], s);
    }
  }

  /** What does not end in white space stays when what follows is trimmed. */
  lemma {:induction false} TrimEndKeepsFront(front: string, s: string)
    requires front != "" && !IsWhite(front[|front| - 1])
    ensures TrimEnd(front + s) == front + TrimEnd(s)
  {
    if s == "" {
      assert front + s == front;
    } else {
      assert (front + s)[..|front + s| - 1] == front + s[..|s| - 1];
      TrimEndKeepsFront(front, s[..|s| - 1]);
    }
  }

  lemma {:induction false} TrimStartSnoc(s: string, c: char)
    requires IsWhite(c)
    ensures TrimStart(s + [c]) == if TrimStart(s) == "" then "" else TrimStart(s) + [c]
  {
    if s == "" {
      assert s + [c] == [c] && ([c])[1..] == "";
    } else {
      assert (s + [c])[1..] == s[1..] + [c];
      if IsWhite(s[0]) {
        TrimStartSnoc(s[1..], c);
      }
    }
  }

  lemma {:induction false} TrimOfTrimEnd(s: string)
    ensures Trim(TrimEnd(s)) == Trim(s)
  {
    if s != "" && IsWhite(s[|s| - 1]) {
      var n := |s| - 1;
      TrimOfTrimEnd(s[..n]);
      assert s == s[..n] + [s[n]];
      TrimStartSnoc(s[..n], s[n]);
      assert (TrimStart(s[..n]) + [s[n]])[..|TrimStart(s[..n])|] == TrimStart(s[..n]);
    }
  }

  lemma {:induction false} TrimEndBlanks(blanks: string)
    requires Blank(blanks)
    ensures TrimEnd(blanks) == ""
  {
    if blanks != "" {
      TrimEndBlanks(blanks[..|blanks| - 1]);
    }
  }

  /** Blanks around a trimmed text are trimmed away. */
  lemma TrimAround(before: string, s: string, after: string)
    requires Blank(before) && Blank(after) && Trimmed(s)
    ensures Trim(before + s + after) == s
  {
    assert before + s + after == before + (s + after);
    TrimStartBlanks(before, s + after);
    if s == "" {
      assert s + after == after == after + "";
      TrimStartBlanks(after, "");
    } else {
      TrimEndKeepsFront(s, after);
      TrimEndBlanks(after);
    }
  }

  /** Only blank text is trimmed to nothing. */
  lemma TrimKeepsInk(s: string)
    requires !Blank(s)
    ensures Trim(s) != ""
  {
    var i :| 0 <= i < |s| && !IsWhite(s[i]);
    TrimStartKeepsInk(s, i);
    var t := TrimStart(s);
    TrimEndKeepsFront(t[..1], t[1..]);
    assert t == t[..1] + t[1..];
  }

  lemma {:induction false} TrimStartKeepsInk(s: string, i: nat)
    requires i < |s| && !IsWhite(s[i])
    ensures TrimStart(s) != "" && !IsWhite(TrimStart(s)[0])
  {
    if IsWhite(s[0]) {
      TrimStartKeepsInk(s[1..], i - 1);
    }
  }

  // ---------------------------------------------------------------------
  // Splitting
  // ---------------------------------------------------------------------

  /** The pieces between the separators; one more than there are separators. */
  function Split(s: string, c: char): (parts: seq<string>)
    ensures |parts| > 0
  {
    if s == "" then [""]
    else if s[0] == c then [""] + Split(s[1..], c)
    else
      var rest := Split(s[1..], c);
      [[s[0]] + rest[0]] + rest[1..]
  }

  function Join(parts: seq<string>, c: char): string {
    if parts == [] then ""
    else if |parts| == 1 then parts[0]
    else parts[0] + [c] + Join(parts[1..], c)
  }

  /** Splitting a concatenation at its separator splits both sides. */
  lemma {:induction false} SplitConcat(a: string, c: char, b: string)
    ensures Split(a + [c] + b, c) == Split(a, c) + Split(b, c)
  {
    var s := a + [c] + b;
    if a == "" {
      assert s[1..] == b;
    } else {
      assert s[1..] == a[1..] + [c] + b;
      SplitConcat(a[1..], c, b);
    }
  }

  lemma {:induction false} SplitFree(s: string, c: char)
    requires Free(s, c)
    ensures Split(s, c) == [s]
  {
    if s != "" {
      SplitFree(s[1..], c);
      assert [s[0]] + s[1..] == s;
    }
  }

  lemma {:induction false} SplitPartsFree(s: string, c: char)
    ensures forall i :: 0 <= i < |Split(s, c)| ==> Free(Split(s, c)[i], c)
  {
    if s != "" {
      SplitPartsFree(s[1..], c);
    }
  }

  lemma {:induction false} SplitKeepsChars(s: string, c: char, i: nat, x: char)
    requires i < |Split(s, c)| && x in Split(s, c)[i]
    ensures x in s
  {
    var rest := Split(s[1..], c);
    if s[0] == c {
      SplitKeepsChars(s[1..], c, i - 1, x);
    } else if i > 0 || x in rest[0] {
      SplitKeepsChars(s[1..], c, i, x);
    }
  }

  /** Joining pieces without separators and splitting again gives the pieces. */
  lemma {:induction false} SplitJoin(parts: seq<string>, c: char)
    requires parts != [] && forall i :: 0 <= i < |parts| ==> Free(parts[i], c)
    ensures Split(Join(parts, c), c) == parts
  {
    SplitFree(parts[0], c);
    if |parts| > 1 {
      SplitJoin(parts[1..], c);
      SplitConcat(parts[0], c, Join(parts[1..], c));
    }
  }
}
