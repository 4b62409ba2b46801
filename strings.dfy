/** The byte-string primitives of Go's `strings` and `strconv` packages that the
    HTTP engine uses. A Go string (and a []byte) is a `string` here, one char per
    octet; lowercasing is ASCII only. */
module Strings {
  import opened Wrappers

  /** The line terminator of HTTP/1.1 messages. */
  const CRLF: string := "\r\n"

  /** An empty line after a line terminator: the end of a header section. */
  const BlankLine: string := "\r\n\r\n"

  predicate OccursAt(s: string, p: string, k: nat)
  {
    k + |p| <= |s| && s[k..k + |p|] == p
  }

  lemma OccursAfterFirst(s: string, p: string)
    requires |s| > 0
    ensures forall k: nat :: k >= 1 ==> (OccursAt(s, p, k) <==> OccursAt(s[1..], p, k - 1))
  {
    forall k: nat | k >= 1
      ensures OccursAt(s, p, k) <==> OccursAt(s[1..], p, k - 1)
    {
      if k + |p| <= |s| {
        assert s[1..][k - 1..k - 1 + |p|] == s[k..k + |p|];
      }
    }
  }

  lemma Reassemble(s: string, i: nat, j: nat)
    requires i <= j <= |s|
    ensures s == s[..i] + s[i..j] + s[j..]
  {
  }

  /** strings.Index: the first position at which `p` occurs in `s`. */
  function IndexOf(s: string, p: string): (r: Option<nat>)
    ensures r.Some? ==> OccursAt(s, p, r.value)
    ensures forall k: nat :: (r.None? || k < r.value) ==> !OccursAt(s, p, k)
    decreases |s|
  {
    if |s| < |p| then None
    else if s[..|p|] == p then Some(0)
    else
      OccursAfterFirst(s, p);
      assert !OccursAt(s, p, 0);
      Shift(IndexOf(s[1..], p), 1)
  }

  /** The first occurrence, from an occurrence with none before it. */
  lemma FirstOccurrence(s: string, p: string, k: nat)
    requires OccursAt(s, p, k)
    requires forall j: nat :: j < k ==> !OccursAt(s, p, j)
    ensures IndexOf(s, p) == Some(k)
  {
  }

  /** strings.Contains */
  predicate Contains(s: string, p: string)
  {
    IndexOf(s, p).Some?
  }

  /** strings.HasPrefix */
  predicate HasPrefix(s: string, p: string)
  {
    |p| <= |s| && s[..|p|] == p
  }

  predicate EndsWith(s: string, p: string)
  {
    |p| <= |s| && s[|s| - |p|..] == p
  }

  /** A text ends in CRLF after a line and its terminator exactly when what
      follows the terminator is empty or ends in CRLF. */
  lemma EndsWithAfterLine(a: string, rest: string)
    ensures EndsWith(a + CRLF + rest, CRLF) <==> rest == "" || EndsWith(rest, CRLF)
  {
    var t := a + CRLF + rest;
    if |rest| >= 2 {
      assert t[|t| - 2..] == rest[|rest| - 2..];
    } else if |rest| == 1 {
      assert t[|t| - 2..] == ['\n', rest[0]];
    } else {
      assert t[|t| - 2..] == CRLF;
    }
  }

  /** strings.TrimPrefix */
  function TrimPrefix(s: string, p: string): (r: string)
    ensures HasPrefix(s, p) ==> p + r == s
    ensures !HasPrefix(s, p) ==> r == s
  {
    if HasPrefix(s, p) then s[|p|..] else s
  }

  /** strings.Join */
  function Join(parts: seq<string>, sep: string): string
  {
    if |parts| == 0 then ""
    else if |parts| == 1 then parts[0]
    else parts[0] + sep + Join(parts[1..], sep)
  }

  lemma BeforeFirstHasNone(s: string, p: string, i: nat)
    requires p != [] && IndexOf(s, p) == Some(i)
    ensures IndexOf(s[..i], p).None?
  {
    var r := IndexOf(s[..i], p);
    if r.Some? {
      var k := r.value;
      assert OccursAt(s[..i], p, k);
      assert s[..i][k..k + |p|] == s[k..k + |p|];
      assert OccursAt(s, p, k);
      assert false;
    }
  }

  /** strings.Split with a non-empty separator: the pieces between the
      occurrences of `sep`, scanned from the left. Joining them back with `sep`
      gives `s` again; SplitPieces shows no piece holds `sep`. */
  function Split(s: string, sep: string): (parts: seq<string>)
    requires sep != []
    ensures |parts| >= 1
    ensures Join(parts, sep) == s
    decreases |s|
  {
    match IndexOf(s, sep)
    case None => [s]
    case Some(i) =>
      var rest := Split(s[i + |sep|..], sep);
      Reassemble(s, i, i + |sep|);
      assert ([s[..i]] + rest)[1..] == rest;
      [s[..i]] + rest
  }

  /** No piece of a split holds the separator: the pieces are exactly the
      text between its occurrences. */
  lemma {:induction false} SplitPieces(s: string, sep: string)
    requires sep != []
    ensures forall i :: 0 <= i < |Split(s, sep)| ==> IndexOf(Split(s, sep)[i], sep).None?
    decreases |s|
  {
    match IndexOf(s, sep)
    case None =>
    case Some(i) =>
      BeforeFirstHasNone(s, sep, i);
      SplitPieces(s[i + |sep|..], sep);
      var rest := Split(s[i + |sep|..], sep);
      assert Split(s, sep) == [s[..i]] + rest;
      forall j | 1 <= j < |Split(s, sep)| ensures Split(s, sep)[j] == rest[j - 1] {
      }
  }

  /** strings.SplitN(s, sep, 2) when it yields two parts: the text before the
      first `sep` and the text after it; None when `sep` does not occur. */
  function Cut(s: string, sep: string): (r: Option<(string, string)>)
    requires sep != []
    ensures r.None? <==> IndexOf(s, sep).None?
    ensures r.Some? ==> s == r.value.0 + sep + r.value.1 && IndexOf(r.value.0, sep).None?
  {
    match IndexOf(s, sep)
    case None => None
    case Some(i) =>
      BeforeFirstHasNone(s, sep, i);
      Reassemble(s, i, i + |sep|);
      Some((s[..i], s[i + |sep|..]))
  }

  function LowerChar(c: char): char
  {
    if 'A' <= c <= 'Z' then (c as int + 32) as char else c
  }

  /** strings.ToLower, restricted to ASCII letters. */
  function ToLower(s: string): (r: string)
    ensures |r| == |s|
    ensures forall i :: 0 <= i < |s| ==> r[i] == LowerChar(s[i])
  {
    seq(|s|, i requires 0 <= i < |s| => LowerChar(s[i]))
  }

  /** The upper-case partner of a lower-case ASCII letter. */
  function UpperChar(c: char): char
    requires 'a' <= c <= 'z'
  {
    (c as int - 32) as char
  }

  /** `s` spells the lower-case ASCII word `lower`, each letter in either case. */
  predicate EqualsIgnoringCase(s: string, lower: string)
    requires forall i :: 0 <= i < |lower| ==> 'a' <= lower[i] <= 'z'
  {
    |s| == |lower| && forall i :: 0 <= i < |s| ==> s[i] == lower[i] || s[i] == UpperChar(lower[i])
  }

  /** Lowercasing gives a lower-case word exactly when the text spells it in
      any mix of cases. */
  lemma ToLowerEquals(s: string, lower: string)
    requires forall i :: 0 <= i < |lower| ==> 'a' <= lower[i] <= 'z'
    ensures ToLower(s) == lower <==> EqualsIgnoringCase(s, lower)
  {
    if EqualsIgnoringCase(s, lower) {
      assert forall i :: 0 <= i < |s| ==> ToLower(s)[i] == lower[i];
    }
  }

  /** `s` spells the lower-case word `lower`, in any mix of cases, at `k`. */
  predicate HoldsIgnoringCase(s: string, k: nat, lower: string)
    requires forall i :: 0 <= i < |lower| ==> 'a' <= lower[i] <= 'z'
  {
    k + |lower| <= |s| && EqualsIgnoringCase(s[k..k + |lower|], lower)
  }

  /** The lower-cased text contains a lower-case word exactly when the text
      holds it, in any mix of cases, somewhere. */
  lemma ContainsIgnoringCase(s: string, lower: string)
    requires forall i :: 0 <= i < |lower| ==> 'a' <= lower[i] <= 'z'
    ensures Contains(ToLower(s), lower) <==> exists k: nat :: HoldsIgnoringCase(s, k, lower)
  {
    var t := ToLower(s);
    forall k: nat | k + |lower| <= |s|
      ensures OccursAt(t, lower, k) <==> HoldsIgnoringCase(s, k, lower)
    {
      assert t[k..k + |lower|] == ToLower(s[k..k + |lower|]);
      ToLowerEquals(s[k..k + |lower|], lower);
    }
    if Contains(t, lower) {
      var k := IndexOf(t, lower).value;
      assert OccursAt(t, lower, k);
      assert HoldsIgnoringCase(s, k, lower);
    }
    if exists k: nat :: HoldsIgnoringCase(s, k, lower) {
      var k: nat :| HoldsIgnoringCase(s, k, lower);
      assert OccursAt(t, lower, k);
    }
  }

  predicate IsDigits(s: string)
  {
    forall i :: 0 <= i < |s| ==> '0' <= s[i] <= '9'
  }

  function DigitChar(d: nat): (c: char)
    requires d < 10
  {
    ('0' as int + d) as char
  }

  /** The number a string of decimal digits denotes. */
  function DecimalValue(s: string): nat
    requires IsDigits(s)
  {
    if s == [] then 0
    else 10 * DecimalValue(s[..|s| - 1]) + (s[|s| - 1] as int - '0' as int)
  }

  /** strconv.Itoa for a length: the shortest decimal numeral of `n`. It reads
      back as `n` and has a leading zero only when it is "0". */
  function Decimal(n: nat): (s: string)
    ensures |s| >= 1 && IsDigits(s)
    ensures DecimalValue(s) == n
    ensures s[0] == '0' <==> n == 0
    ensures n == 0 ==> s == "0"
  {
    if n < 10 then [DigitChar(n)]
    else
      var s := Decimal(n / 10) + [DigitChar(n % 10)];
      assert s[..|s| - 1] == Decimal(n / 10);
      s
  }

  /** Decimal is the only numeral of `n` without a leading zero: any other
      string of digits that reads back as `n` starts with a redundant '0'. */
  lemma {:induction false} DecimalUnique(s: string, n: nat)
    requires |s| >= 1 && IsDigits(s) && DecimalValue(s) == n
    requires s[0] == '0' ==> s == "0"
    ensures s == Decimal(n)
    decreases |s|
  {
    var last := s[|s| - 1] as int - '0' as int;
    if |s| > 1 {
      var p := s[..|s| - 1];
      assert p[0] == s[0];
      DecimalUnique(p, DecimalValue(p));
      assert n == 10 * DecimalValue(p) + last;
      assert n / 10 == DecimalValue(p) && n % 10 == last;
      assert s == p + [DigitChar(last)];
    } else {
      assert s == [DigitChar(last)];
    }
  }

  /** The `%d` verb of fmt for an int. */
  function FormatInt(i: int): string
  {
    if i < 0 then "-" + Decimal(-i) else Decimal(i)
  }

  /** No CR immediately followed by LF inside `s`. */
  predicate NoCrlf(s: string)
  {
    forall i :: 0 <= i < |s| - 1 ==> !(s[i] == '\r' && s[i + 1] == '\n')
  }

  lemma NoCrlfOfIndex(s: string)
    requires IndexOf(s, CRLF).None?
    ensures NoCrlf(s)
  {
    forall i | 0 <= i < |s| - 1
      ensures !(s[i] == '\r' && s[i + 1] == '\n')
    {
      assert s[i..i + 2] == [s[i], s[i + 1]];
    }
  }

  lemma NoCrlfWithoutCr(s: string)
    requires forall i :: 0 <= i < |s| ==> s[i] != '\r'
    ensures NoCrlf(s)
  {
  }

  lemma NoCrlfSlice(s: string, i: nat, j: nat)
    requires NoCrlf(s) && i <= j <= |s|
    ensures NoCrlf(s[i..j])
  {
    var t := s[i..j];
    forall k | 0 <= k < |t| - 1
      ensures !(t[k] == '\r' && t[k + 1] == '\n')
    {
      assert t[k] == s[i + k] && t[k + 1] == s[i + k + 1];
    }
  }

  /** The pieces joined into a CRLF-free string are CRLF-free. */
  lemma {:induction false} JoinedPiecesNoCrlf(parts: seq<string>, sep: string)
    requires NoCrlf(Join(parts, sep))
    ensures forall i :: 0 <= i < |parts| ==> NoCrlf(parts[i])
  {
    if |parts| > 1 {
      var s := Join(parts, sep);
      assert s == parts[0] + sep + Join(parts[1..], sep);
      assert parts[0] == s[..|parts[0]|];
      NoCrlfSlice(s, 0, |parts[0]|);
      assert Join(parts[1..], sep) == s[|parts[0]| + |sep|..];
      NoCrlfSlice(s, |parts[0]| + |sep|, |s|);
      JoinedPiecesNoCrlf(parts[1..], sep);
      forall i | 1 <= i < |parts| ensures NoCrlf(parts[i]) {
        assert parts[i] == parts[1..][i - 1];
      }
    }
  }

  /** A decimal numeral holds no line break. */
  lemma DigitsNoCrlf(s: string)
    requires IsDigits(s)
    ensures NoCrlf(s)
  {
    NoCrlfWithoutCr(s);
  }

  /** Two CRLF-free strings stay CRLF-free when joined, unless the join itself
      puts a CR before an LF. */
  lemma NoCrlfAppend(a: string, b: string)
    requires NoCrlf(a) && NoCrlf(b)
    requires a != [] && b != [] ==> !(a[|a| - 1] == '\r' && b[0] == '\n')
    ensures NoCrlf(a + b)
  {
    var s := a + b;
    forall i | 0 <= i < |s| - 1
      ensures !(s[i] == '\r' && s[i + 1] == '\n')
    {
      if i + 1 < |a| {
        assert s[i] == a[i] && s[i + 1] == a[i + 1];
      } else if i >= |a| {
        assert s[i] == b[i - |a|] && s[i + 1] == b[i - |a| + 1];
      }
    }
  }

  /** An empty line at position `k` is the four octets CR LF CR LF there. */
  lemma BlankLineAt(s: string, k: nat)
    ensures OccursAt(s, BlankLine, k) ==>
      s[k] == '\r' && s[k + 1] == '\n' && s[k + 2] == '\r' && s[k + 3] == '\n'
  {
    if OccursAt(s, BlankLine, k) {
      var w := s[k..k + 4];
      assert w[0] == s[k] && w[1] == s[k + 1] && w[2] == s[k + 2] && w[3] == s[k + 3];
    }
  }

  /** A CRLF-free line followed by a line terminator cannot hold the start of
      an empty line: the first one is found after the terminator. */
  lemma {:induction false} SkipLine(a: string, t: string)
    requires NoCrlf(a)
    ensures IndexOf(a + CRLF + t, BlankLine) == Shift(IndexOf(CRLF + t, BlankLine), |a|)
  {
    if a == [] {
      assert a + CRLF + t == CRLF + t;
    } else {
      var s := a + CRLF + t;
      BlankLineAt(s, 0);
      assert |a| > 1 ==> a[0] == s[0] && a[1] == s[1];
      assert !OccursAt(s, BlankLine, 0);
      assert s[1..] == a[1..] + CRLF + t;
      SkipLine(a[1..], t);
    }
  }

  /** A line terminator followed by text that does not start with another one
      is not an empty line. */
  lemma DropBreak(u: string)
    requires u != [] && !(|u| >= 2 && u[0] == '\r' && u[1] == '\n')
    ensures IndexOf(CRLF + u, BlankLine) == Shift(IndexOf(u, BlankLine), 2)
  {
    var s := CRLF + u;
    var s1 := s[1..];
    assert s1[0] == '\n' && s1[1..] == u;
    assert |u| >= 2 ==> s[2] == u[0] && s[3] == u[1];
    BlankLineAt(s, 0);
    BlankLineAt(s1, 0);
    IndexStep(s, BlankLine);
    IndexStep(s1, BlankLine);
  }

  /** Where the pattern does not start the text, the search goes on one
      position further. */
  lemma IndexStep(s: string, p: string)
    requires |s| > 0 && !OccursAt(s, p, 0)
    ensures IndexOf(s, p) == Shift(IndexOf(s[1..], p), 1)
  {
  }

  /** After a line terminator, a non-empty CRLF-free line and its terminator
      hold no empty line either. */
  lemma SkipLineAfterBreak(a: string, t: string)
    requires a != [] && NoCrlf(a)
    ensures IndexOf(CRLF + (a + CRLF + t), BlankLine)
         == Shift(IndexOf(CRLF + t, BlankLine), |a| + 2)
  {
    var u := a + CRLF + t;
    assert u[0] == a[0];
    assert |a| > 1 ==> u[1] == a[1];
    assert |a| == 1 ==> u[1] == '\r';
    DropBreak(u);
    SkipLine(a, t);
  }

  /** Proof helper: regrouping a concatenation, called where the solver
      would otherwise have to find the regrouping itself. */
  lemma AppendAssoc(a: string, b: string, c: string)
    ensures a + b + c == a + (b + c)
  {
  }

  /** Proof helper with nothing new to say about the program: SkipLine,
      restated for a text `x` known to be that line and terminator followed
      by `u`, which keeps callers' proofs small. */
  lemma SkipFirstLineInto(a: string, u: string, x: string, n: nat)
    requires NoCrlf(a)
    requires IndexOf(CRLF + u, BlankLine) == Some(n)
    requires x == a + CRLF + u
    ensures IndexOf(x, BlankLine) == Some(n + |a|)
  {
    SkipLine(a, u);
    assert IndexOf(a + CRLF + u, BlankLine) == Some(n + |a|);
  }

  /** Proof helper with nothing new to say about the program:
      SkipLineAfterBreak, restated for a text `x` known to be that line and
      terminator followed by `u`, which keeps callers' proofs small. */
  lemma SkipLineInto(a: string, u: string, x: string, n: nat)
    requires a != [] && NoCrlf(a)
    requires IndexOf(CRLF + u, BlankLine) == Some(n)
    requires x == a + CRLF + u
    ensures IndexOf(CRLF + x, BlankLine) == Some(n + |a| + 2)
  {
    SkipLineAfterBreak(a, u);
    assert IndexOf(CRLF + (a + CRLF + u), BlankLine) == Some(n + |a| + 2);
  }

  /** A line terminator followed by CRLF-free text holds no empty line. */
  lemma NoBlankLineAfter(t: string)
    requires NoCrlf(t)
    ensures IndexOf(CRLF + t, BlankLine).None?
  {
    var s := CRLF + t;
    var r := IndexOf(s, BlankLine);
    if r.Some? {
      var k := r.value;
      BlankLineAt(s, k);
      assert false;
    }
  }
}
