/** The java.lang.String operations the backend relies on: case folding,
    ignore-case ordering, substring search, trim, isBlank, String.join,
    String.split with a one-character delimiter and Integer.toString. */
module JavaText {

  // ---------------------------------------------------------------------
  // Case folding (ASCII letters only)
  // ---------------------------------------------------------------------

  /** Character.toLowerCase restricted to the ASCII letters. */
  function LowerChar(c: char): char {
    if 'A' <= c <= 'Z' then (c as int + 32) as char else c
  }

  /** String.toLowerCase, folding ASCII letters one by one. */
  function Lower(s: string): (r: string)
    ensures |r| == |s|
    ensures forall i :: 0 <= i < |s| ==> r[i] == LowerChar(s[i])
  {
    seq(|s|, i requires 0 <= i < |s| => LowerChar(s[i]))
  }

  lemma LowerIdempotent(s: string)
    ensures Lower(Lower(s)) == Lower(s)
  {
  }

  /** String.equalsIgnoreCase. */
  predicate EqualsIgnoreCase(a: string, b: string) {
    Lower(a) == Lower(b)
  }

  // ---------------------------------------------------------------------
  // String.length: UTF-16 code units
  // ---------------------------------------------------------------------

  /** The UTF-16 code units a character takes: one in the basic
      multilingual plane, a surrogate pair above U+FFFF. */
  function Utf16Units(c: char): nat {
    if c as int <= 0xFFFF then 1 else 2
  }

  /** String.length(): the UTF-16 code units of `s`, so a character above
      U+FFFF counts twice. */
  function JavaLength(s: string): (n: nat)
    ensures |s| <= n <= 2 * |s|
    decreases |s|
  {
    if |s| == 0 then 0 else JavaLength(s[..|s| - 1]) + Utf16Units(s[|s| - 1])
  }

  /** The length of a concatenation is the sum of the lengths. */
  lemma {:induction false} JavaLengthAppend(a: string, b: string)
    ensures JavaLength(a + b) == JavaLength(a) + JavaLength(b)
    decreases |b|
  {
    if |b| > 0 {
      JavaLengthAppend(a, b[..|b| - 1]);
      assert (a + b)[..|a + b| - 1] == a + b[..|b| - 1];
      assert (a + b)[|a + b| - 1] == b[|b| - 1];
    } else {
      assert a + b == a;
    }
  }

  /** The Java length is the character count exactly when no character
      lies above U+FFFF. */
  lemma {:induction false} JavaLengthBasicPlane(s: string)
    ensures JavaLength(s) == |s| <==> forall i :: 0 <= i < |s| ==> s[i] as int <= 0xFFFF
    decreases |s|
  {
    if |s| > 0 {
      var init := s[..|s| - 1];
      JavaLengthBasicPlane(init);
      assert forall i :: 0 <= i < |init| ==> init[i] == s[i];
    }
  }

  // ---------------------------------------------------------------------
  // Lexicographic order (String.compareTo <= 0, compareToIgnoreCase <= 0)
  // ---------------------------------------------------------------------

  /** `a` sorts before or together with `b`: char codes compared left to
      right, a proper prefix first. */
  predicate LexLe(a: string, b: string)
    decreases |a|
  {
    if |a| == 0 then true
    else if |b| == 0 then false
    else if a[0] != b[0] then a[0] < b[0]
    else LexLe(a[1..], b[1..])
  }

  lemma {:induction false} LexLeTotal(a: string, b: string)
    ensures LexLe(a, b) || LexLe(b, a)
    decreases |a|
  {
    if |a| > 0 && |b| > 0 && a[0] == b[0] {
      LexLeTotal(a[1..], b[1..]);
    }
  }

  lemma {:induction false} LexLeTransitive(a: string, b: string, c: string)
    requires LexLe(a, b) && LexLe(b, c)
    ensures LexLe(a, c)
    decreases |a|
  {
    if |a| > 0 && |b| > 0 && |c| > 0 && a[0] == b[0] && b[0] == c[0] {
      LexLeTransitive(a[1..], b[1..], c[1..]);
    }
  }

  /** String.compareToIgnoreCase(a, b) <= 0. */
  predicate IgnoreCaseLe(a: string, b: string) {
    LexLe(Lower(a), Lower(b))
  }

  lemma IgnoreCaseLeTotal(a: string, b: string)
    ensures IgnoreCaseLe(a, b) || IgnoreCaseLe(b, a)
  {
    LexLeTotal(Lower(a), Lower(b));
  }

  lemma IgnoreCaseLeTransitive(a: string, b: string, c: string)
    requires IgnoreCaseLe(a, b) && IgnoreCaseLe(b, c)
    ensures IgnoreCaseLe(a, c)
  {
    LexLeTransitive(Lower(a), Lower(b), Lower(c));
  }

  // ---------------------------------------------------------------------
  // Substring search (String.contains)
  // ---------------------------------------------------------------------

  /** `t` occurs in `s` starting at index `i`. */
  predicate OccursAt(s: string, t: string, i: int) {
    0 <= i && i + |t| <= |s| && s[i..i + |t|] == t
  }

  /** String.contains: tries every start position from the left. */
  predicate Contains(s: string, t: string)
    decreases |s|
  {
    |t| <= |s| && (s[..|t|] == t || Contains(s[1..], t))
  }

  lemma {:induction false} ContainsIff(s: string, t: string)
    ensures Contains(s, t) <==> exists i :: OccursAt(s, t, i)
    decreases |s|
  {
    if |t| <= |s| {
      if s[..|t|] == t {
        assert OccursAt(s, t, 0);
      } else {
        ContainsIff(s[1..], t);
        if Contains(s[1..], t) {
          var i :| OccursAt(s[1..], t, i);
          assert s[1..][i..i + |t|] == s[i + 1..i + 1 + |t|];
          assert OccursAt(s, t, i + 1);
        }
        if exists i :: OccursAt(s, t, i) {
          var i :| OccursAt(s, t, i);
          assert i != 0;
          assert s[1..][i - 1..i - 1 + |t|] == s[i..i + |t|];
          assert OccursAt(s[1..], t, i - 1);
        }
      }
    }
  }

  // ---------------------------------------------------------------------
  // trim and isBlank
  // ---------------------------------------------------------------------

  /** String.trim removes every char at or below U+0020 from both ends. */
  predicate IsTrimmable(c: char) {
    c <= ' '
  }

  /** The first index at or after `st` whose char is not trimmable. */
  function SkipLeading(s: string, st: nat): (r: nat)
    requires st <= |s|
    ensures st <= r <= |s|
    ensures forall k :: st <= k < r ==> IsTrimmable(s[k])
    ensures r < |s| ==> !IsTrimmable(s[r])
    decreases |s| - st
  {
    if st < |s| && IsTrimmable(s[st]) then SkipLeading(s, st + 1) else st
  }

  /** The end, at or before `len` and after `st`, of the last untrimmable char. */
  function SkipTrailing(s: string, st: nat, len: nat): (r: nat)
    requires st <= len <= |s|
    ensures st <= r <= len
    ensures forall k :: r <= k < len ==> IsTrimmable(s[k])
    ensures r > st ==> !IsTrimmable(s[r - 1])
    decreases len
  {
    if st < len && IsTrimmable(s[len - 1]) then SkipTrailing(s, st, len - 1) else len
  }

  /** `r` is the slice of `s` at `lo` and everything around it is trimmable. */
  predicate TrimmedAt(s: string, r: string, lo: int) {
    && 0 <= lo && lo + |r| <= |s| && r == s[lo..lo + |r|]
    && (forall k :: 0 <= k < lo ==> IsTrimmable(s[k]))
    && (forall k :: lo + |r| <= k < |s| ==> IsTrimmable(s[k]))
  }

  /** String.trim: the longest slice of `s` that neither starts nor ends
      with a trimmable char, everything cut away being trimmable. */
  function Trim(s: string): (r: string)
    ensures |r| == 0 || (!IsTrimmable(r[0]) && !IsTrimmable(r[|r| - 1]))
    ensures exists lo :: TrimmedAt(s, r, lo)
  {
    var st := SkipLeading(s, 0);
    var len := SkipTrailing(s, st, |s|);
    assert TrimmedAt(s, s[st..len], st);
    s[st..len]
  }

  lemma TrimKeepsUntrimmable(s: string)
    requires forall k :: 0 <= k < |s| ==> !IsTrimmable(s[k])
    ensures Trim(s) == s
  {
  }

  /** Character.isWhitespace: the Unicode space, line and paragraph
      separators other than the no-break spaces, plus the ASCII controls
      TAB, LF, VT, FF, CR and FS..US. */
  predicate IsWhitespace(c: char) {
    || c == ' ' || ('\t' <= c <= '\r') || ('\U{1C}' <= c <= '\U{1F}')
    || c == '\U{1680}' || ('\U{2000}' <= c <= '\U{2006}') || ('\U{2008}' <= c <= '\U{200A}')
    || c == '\U{2028}' || c == '\U{2029}' || c == '\U{205F}' || c == '\U{3000}'
  }

  /** String.isBlank: empty or whitespace only. */
  predicate IsBlank(s: string) {
    forall k :: 0 <= k < |s| ==> IsWhitespace(s[k])
  }

  // ---------------------------------------------------------------------
  // String.join and String.split
  // ---------------------------------------------------------------------

  /** String.join(sep, parts). */
  function Join(sep: string, parts: seq<string>): string
    decreases |parts|
  {
    if |parts| == 0 then ""
    else if |parts| == 1 then parts[0]
    else parts[0] + sep + Join(sep, parts[1..])
  }

  /** Every piece between occurrences of `c`, empty pieces included; joining
      them with `c` gives back `s`. */
  function SplitAll(s: string, c: char): (r: seq<string>)
    ensures |r| >= 1
    ensures forall i :: 0 <= i < |r| ==> c !in r[i]
    ensures Join([c], r) == s
    decreases |s|
  {
    if |s| == 0 then [""]
    else
      var rest := SplitAll(s[1..], c);
      if s[0] == c then
        assert ([""] + rest)[1..] == rest;
        [""] + rest
      else
        var r := [[s[0]] + rest[0]] + rest[1..];
        assert r[1..] == rest[1..];
        assert s == [s[0]] + s[1..];
        r
  }

  /** The trailing empty strings removed, as String.split with limit 0 does. */
  function DropTrailingEmpty(ps: seq<string>): (r: seq<string>)
    ensures r <= ps
    ensures |r| > 0 ==> r[|r| - 1] != ""
    ensures forall i :: |r| <= i < |ps| ==> ps[i] == ""
    decreases |ps|
  {
    if |ps| == 0 then []
    else if ps[|ps| - 1] == "" then DropTrailingEmpty(ps[..|ps| - 1])
    else ps
  }

  /** A piece free of `c` followed by `c` splits off as one piece. */
  lemma {:induction false} SplitAllPrefix(x: string, y: string, c: char)
    requires c !in x
    ensures SplitAll(x + [c] + y, c) == [x] + SplitAll(y, c)
    decreases |x|
  {
    var s := x + [c] + y;
    if |x| == 0 {
      assert s[1..] == y;
    } else {
      assert s[1..] == x[1..] + [c] + y;
      SplitAllPrefix(x[1..], y, c);
      assert [x[0]] + x[1..] == x;
    }
  }

  lemma {:induction false} SplitAllNoDelim(s: string, c: char)
    requires c !in s
    ensures SplitAll(s, c) == [s]
    decreases |s|
  {
    if |s| > 0 {
      SplitAllNoDelim(s[1..], c);
      assert [s[0]] + s[1..] == s;
    }
  }

  /** Splitting a join gives the parts back when no part holds the
      delimiter. */
  lemma {:induction false} SplitAllJoin(parts: seq<string>, c: char)
    requires |parts| >= 1
    requires forall i :: 0 <= i < |parts| ==> c !in parts[i]
    ensures SplitAll(Join([c], parts), c) == parts
    decreases |parts|
  {
    if |parts| == 1 {
      SplitAllNoDelim(parts[0], c);
    } else {
      SplitAllJoin(parts[1..], c);
      SplitAllPrefix(parts[0], Join([c], parts[1..]), c);
      assert [parts[0]] + parts[1..] == parts;
    }
  }

  /** String.split(c) for a delimiter that is not a regex metacharacter:
      the input itself when `c` does not occur, otherwise the pieces with
      the trailing empty ones dropped (possibly none left at all). */
  function Split(s: string, c: char): seq<string> {
    if c !in s then [s] else DropTrailingEmpty(SplitAll(s, c))
  }

  /** String.indexOf(c): the first position of `c`, or |s| when absent. */
  function IndexOf(s: string, c: char): (i: nat)
    ensures i <= |s|
    ensures i < |s| ==> s[i] == c
    ensures forall j :: 0 <= j < i ==> s[j] != c
    ensures i == |s| <==> c !in s
    decreases |s|
  {
    if |s| == 0 then 0 else if s[0] == c then 0 else 1 + IndexOf(s[1..], c)
  }

  /** The text before the first `c` (all of it when there is none). */
  function Before(s: string, c: char): (r: string)
    ensures r <= s && c !in r
  {
    s[..IndexOf(s, c)]
  }

  /** The text after the first `c`. */
  function After(s: string, c: char): (r: string)
    requires c in s
    ensures s == Before(s, c) + [c] + r
  {
    s[IndexOf(s, c) + 1..]
  }

  /** The first piece runs up to the first delimiter; the others are the
      pieces of the text after it. */
  lemma {:induction false} SplitAllHead(s: string, c: char)
    ensures SplitAll(s, c)[0] == s[..IndexOf(s, c)]
    ensures IndexOf(s, c) < |s| ==> SplitAll(s, c)[1..] == SplitAll(s[IndexOf(s, c) + 1..], c)
    ensures IndexOf(s, c) == |s| ==> |SplitAll(s, c)| == 1
    decreases |s|
  {
    if |s| > 0 && s[0] == c {
      assert SplitAll(s, c) == [""] + SplitAll(s[1..], c);
      assert IndexOf(s, c) == 0;
    } else if |s| > 0 {
      var rest := SplitAll(s[1..], c);
      SplitAllHead(s[1..], c);
      var m := IndexOf(s[1..], c);
      assert IndexOf(s, c) == m + 1;
      assert SplitAll(s, c) == [[s[0]] + rest[0]] + rest[1..];
      assert rest[0] == s[1..][..m];
      assert [s[0]] + s[1..][..m] == s[..m + 1];
      if m < |s[1..]| {
        assert s[1..][m + 1..] == s[m + 2..];
        assert SplitAll(s, c)[1..] == rest[1..];
      } else {
        assert |rest| == 1;
      }
    }
  }

  /** Every piece is empty exactly when the text is delimiters only. */
  lemma {:induction false} AllPiecesEmpty(s: string, c: char)
    ensures (forall i :: 0 <= i < |SplitAll(s, c)| ==> SplitAll(s, c)[i] == "")
            <==> (forall k :: 0 <= k < |s| ==> s[k] == c)
    decreases |s|
  {
    if |s| > 0 {
      AllPiecesEmpty(s[1..], c);
      var rest := SplitAll(s[1..], c);
      if s[0] == c {
        assert SplitAll(s, c) == [""] + rest;
        assert forall k :: 1 <= k < |s| ==> s[k] == s[1..][k - 1];
      } else {
        assert SplitAll(s, c)[0] != "";
      }
    }
  }

  lemma DropTrailingEmptyShape(ps: seq<string>, n: nat)
    ensures |DropTrailingEmpty(ps)| == 0 <==> forall i :: 0 <= i < |ps| ==> ps[i] == ""
    ensures |DropTrailingEmpty(ps)| > n <==> exists i :: n <= i < |ps| && ps[i] != ""
  {
    var r := DropTrailingEmpty(ps);
    if exists i :: n <= i < |ps| && ps[i] != "" {
      var i :| n <= i < |ps| && ps[i] != "";
      assert i < |r|;
    }
    if |r| > n {
      assert r[|r| - 1] == ps[|r| - 1];
    }
    if |r| > 0 {
      assert r[|r| - 1] == ps[|r| - 1];
    }
  }

  /** What String.split(c) returns, piece by piece: none at all for a
      text of delimiters only; the text before the first delimiter; and a
      second piece, running to the next delimiter, exactly when something
      other than a delimiter follows the first one. */
  lemma SplitShape(s: string, c: char)
    ensures |Split(s, c)| == 0 <==> |s| > 0 && forall k :: 0 <= k < |s| ==> s[k] == c
    ensures |Split(s, c)| >= 1 ==> Split(s, c)[0] == s[..IndexOf(s, c)]
    ensures |Split(s, c)| >= 2 <==> exists k :: IndexOf(s, c) < k < |s| && s[k] != c
    ensures |Split(s, c)| >= 2 ==>
              var after := s[IndexOf(s, c) + 1..];
              Split(s, c)[1] == after[..IndexOf(after, c)]
  {
    SplitNone(s, c);
    SplitFirst(s, c);
    if c in s {
      SplitSecond(s, c);
    }
  }

  lemma SplitNone(s: string, c: char)
    ensures |Split(s, c)| == 0 <==> |s| > 0 && forall k :: 0 <= k < |s| ==> s[k] == c
  {
    if c in s {
      var ps := SplitAll(s, c);
      AllPiecesEmpty(s, c);
      DropTrailingEmptyShape(ps, 0);
      var allEmpty := forall i :: 0 <= i < |ps| ==> ps[i] == "";
      var allDelims := forall k :: 0 <= k < |s| ==> s[k] == c;
      assert allEmpty <==> allDelims;
      assert |DropTrailingEmpty(ps)| == 0 <==> allEmpty;
      assert |s| > 0;
      assert |Split(s, c)| == |DropTrailingEmpty(ps)|;
    } else if |s| > 0 {
      assert s[0] in s;
    }
  }

  lemma SplitFirst(s: string, c: char)
    ensures |Split(s, c)| >= 1 ==> Split(s, c)[0] == s[..IndexOf(s, c)]
  {
    if c in s {
      var ps := SplitAll(s, c);
      var r := DropTrailingEmpty(ps);
      SplitAllHead(s, c);
      if |r| >= 1 {
        assert r[0] == ps[0];
      }
    } else {
      assert s[..|s|] == s;
    }
  }

  lemma SplitSecond(s: string, c: char)
    requires c in s
    ensures |Split(s, c)| >= 2 <==> exists k :: IndexOf(s, c) < k < |s| && s[k] != c
    ensures |Split(s, c)| >= 2 ==>
              var after := s[IndexOf(s, c) + 1..];
              Split(s, c)[1] == after[..IndexOf(after, c)]
  {
    SplitSecondExists(s, c);
    var i := IndexOf(s, c);
    var ps := SplitAll(s, c);
    var r := DropTrailingEmpty(ps);
    var after := s[i + 1..];
    if |r| >= 2 {
      SplitAllHead(s, c);
      SplitAllHead(after, c);
      assert r[1] == ps[1] == ps[1..][0] == SplitAll(after, c)[0];
    }
  }

  lemma SplitSecondExists(s: string, c: char)
    requires c in s
    ensures |Split(s, c)| >= 2 <==> exists k :: IndexOf(s, c) < k < |s| && s[k] != c
  {
    var i := IndexOf(s, c);
    var ps := SplitAll(s, c);
    var after := s[i + 1..];
    var qs := SplitAll(after, c);
    SplitAllHead(s, c);
    DropTrailingEmptyShape(ps, 1);
    AllPiecesEmpty(after, c);
    TailPieces(ps, qs);
    SuffixChars(s, i, after, c);
    var laterPiece := exists j :: 1 <= j < |ps| && ps[j] != "";
    var somePiece := exists j :: 0 <= j < |qs| && qs[j] != "";
    var someChar := exists k :: 0 <= k < |after| && after[k] != c;
    assert |DropTrailingEmpty(ps)| > 1 <==> laterPiece;
    assert laterPiece <==> somePiece;
    assert somePiece <==> someChar;
  }

  lemma TailPieces(ps: seq<string>, qs: seq<string>)
    requires |ps| >= 1 && ps[1..] == qs
    ensures (exists j :: 1 <= j < |ps| && ps[j] != "") <==> (exists j :: 0 <= j < |qs| && qs[j] != "")
  {
    forall j | 1 <= j < |ps| ensures ps[j] == qs[j - 1] {
      assert ps[j] == ps[1..][j - 1];
    }
  }

  lemma SuffixChars(s: string, i: nat, after: string, c: char)
    requires i < |s| && after == s[i + 1..]
    ensures (exists k :: i < k < |s| && s[k] != c) <==> (exists k :: 0 <= k < |after| && after[k] != c)
  {
    forall k | i < k < |s| ensures s[k] == after[k - i - 1] { }
  }

  /** String.split undoes String.join when no part holds the delimiter
      and the last part is not empty. */
  lemma SplitJoin(parts: seq<string>, c: char)
    requires |parts| >= 1 && parts[|parts| - 1] != ""
    requires forall i :: 0 <= i < |parts| ==> c !in parts[i]
    ensures Split(Join([c], parts), c) == parts
  {
    SplitAllJoin(parts, c);
    if |parts| == 1 {
      assert Join([c], parts) == parts[0];
    } else {
      assert Join([c], parts) == parts[0] + [c] + Join([c], parts[1..]);
      assert Join([c], parts)[|parts[0]|] == c;
    }
  }

  /** String.startsWith. */
  predicate StartsWith(s: string, p: string) {
    |p| <= |s| && s[..|p|] == p
  }

  // ---------------------------------------------------------------------
  // Integer.toString
  // ---------------------------------------------------------------------

  function DigitChar(d: nat): char
    requires d < 10
  {
    ('0' as int + d) as char
  }

  predicate AllDigits(s: string) {
    forall i :: 0 <= i < |s| ==> '0' <= s[i] <= '9'
  }

  function NatToString(n: nat): (r: string)
    ensures |r| >= 1 && AllDigits(r)
    decreases n
  {
    if n < 10 then [DigitChar(n)] else NatToString(n / 10) + [DigitChar(n % 10)]
  }

  /** Integer.toString: decimal digits, a leading '-' for negatives. */
  function IntToString(n: int): string {
    if n < 0 then "-" + NatToString(-n) else NatToString(n)
  }

  /** Decimal value of a digit string (Integer.parseInt without sign). */
  function ParseNat(s: string): nat
    requires AllDigits(s)
    decreases |s|
  {
    if |s| == 0 then 0 else ParseNat(s[..|s| - 1]) * 10 + (s[|s| - 1] as int - '0' as int)
  }

  /** Integer.parseInt of a string produced by Integer.toString. */
  function ParseInt(s: string): int {
    if |s| > 0 && s[0] == '-' && AllDigits(s[1..]) then -(ParseNat(s[1..]) as int)
    else if AllDigits(s) then ParseNat(s)
    else 0
  }

  lemma {:induction false} ParseNatToString(n: nat)
    ensures ParseNat(NatToString(n)) == n
    decreases n
  {
    if n >= 10 {
      ParseNatToString(n / 10);
      var s := NatToString(n);
      assert s[..|s| - 1] == NatToString(n / 10);
    }
  }

  /** The decimal text of an int reads back as that int. */
  lemma ParseIntToString(n: int)
    ensures ParseInt(IntToString(n)) == n
  {
    if n < 0 {
      ParseNatToString(-n);
      assert IntToString(n)[1..] == NatToString(-n);
    } else {
      ParseNatToString(n);
    }
  }

  // ---------------------------------------------------------------------
  // Java int arithmetic
  // ---------------------------------------------------------------------

  const IntMin: int := -0x8000_0000
  const IntMax: int := 0x7FFF_FFFF

  predicate IsInt32(x: int) {
    IntMin <= x <= IntMax
  }

  /** The value a Java int holds after an operation whose exact result is
      `x`: two's complement wrap-around modulo 2^32. */
  function Wrap32(x: int): (r: int)
    ensures IsInt32(r)
    ensures (r - x) % 0x1_0000_0000 == 0
  {
    (x - IntMin) % 0x1_0000_0000 + IntMin
  }

  lemma Wrap32InRange(x: int)
    requires IsInt32(x)
    ensures Wrap32(x) == x
  {
  }
}
