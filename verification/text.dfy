/** Character and string helpers shared by the label logic: ASCII digit and
    case predicates, decimal rendering of indices (Rust's `format!("{i}")`),
    and splitting/joining on a separator (Rust's `str::split` and
    `[String]::join`). */
module Text {

  predicate IsAsciiDigit(c: char) {
    '0' <= c <= '9'
  }

  predicate AllDigits(s: string) {
    forall i :: 0 <= i < |s| ==> IsAsciiDigit(s[i])
  }

  /** Upper-case mapping of one character, restricted to ASCII: `a`..`z`
      become `A`..`Z`, every other character maps to itself. */
  function ToUpperAscii(c: char): (u: char)
    ensures 'a' <= c <= 'z' ==> 'A' <= u <= 'Z' && u as int + 32 == c as int
    ensures !('a' <= c <= 'z') ==> u == c
    ensures IsAsciiDigit(u) <==> IsAsciiDigit(c)
    ensures u == '_' <==> c == '_'
  {
    if 'a' <= c <= 'z' then (c as int - 32) as char else c
  }

  function DigitChar(d: nat): (c: char)
    requires d < 10
    ensures IsAsciiDigit(c) && c as int - '0' as int == d
  {
    ('0' as int + d) as char
  }

  function DigitValue(c: char): nat
    requires IsAsciiDigit(c)
  {
    c as int - '0' as int
  }

  /** Decimal rendering of a natural number, most significant digit first. */
  function NatToDecimal(n: nat): (s: string)
    ensures |s| >= 1
    ensures AllDigits(s)
    decreases n
  {
    if n < 10 then [DigitChar(n)] else NatToDecimal(n / 10) + [DigitChar(n % 10)]
  }

  /** The value a string of decimal digits denotes. */
  function DecimalValue(s: string): nat
    requires AllDigits(s)
  {
    if |s| == 0 then 0 else DecimalValue(s[..|s| - 1]) * 10 + DigitValue(s[|s| - 1])
  }

  /** Reading back a rendered number gives the number. */
  lemma {:induction false} DecimalRoundTrip(n: nat)
    ensures DecimalValue(NatToDecimal(n)) == n
    decreases n
  {
    var s := NatToDecimal(n);
    if n >= 10 {
      DecimalRoundTrip(n / 10);
      assert s[..|s| - 1] == NatToDecimal(n / 10);
    }
  }

  /** Distinct numbers render to distinct strings. */
  lemma DecimalInjective(m: nat, n: nat)
    requires m != n
    ensures NatToDecimal(m) != NatToDecimal(n)
  {
    DecimalRoundTrip(m);
    DecimalRoundTrip(n);
  }

  // ---------------------------------------------------------------------
  // Splitting and joining

  /** Rust's `s.split(sep)`: the maximal pieces between separators, always at
      least one piece (`"".split('_')` yields `[""]`). */
  function SplitOn(s: string, sep: char): (r: seq<string>)
    ensures |r| >= 1
    ensures forall i :: 0 <= i < |r| ==> sep !in r[i]
    decreases |s|
  {
    if |s| == 0 then [""]
    else
      var rest := SplitOn(s[1..], sep);
      if s[0] == sep then [""] + rest
      else [[s[0]] + rest[0]] + rest[1..]
  }

  /** Rust's `pieces.join(sep)`: the pieces with one separator between
      neighbours; no pieces join to the empty string. */
  function JoinWith(ws: seq<string>, sep: char): string
  {
    if |ws| == 0 then ""
    else if |ws| == 1 then ws[0]
    else ws[0] + [sep] + JoinWith(ws[1..], sep)
  }

  /** Joining the pieces of a split restores the string. */
  lemma {:induction false} JoinSplit(s: string, sep: char)
    ensures JoinWith(SplitOn(s, sep), sep) == s
    decreases |s|
  {
    if |s| > 0 {
      var rest := SplitOn(s[1..], sep);
      JoinSplit(s[1..], sep);
      if s[0] == sep {
        assert SplitOn(s, sep)[1..] == rest;
      } else {
        var r := SplitOn(s, sep);
        if |rest| == 1 {
          assert r == [[s[0]] + rest[0]];
        } else {
          assert r[1..] == rest[1..];
          assert JoinWith(rest, sep) == rest[0] + [sep] + JoinWith(rest[1..], sep);
        }
      }
    }
  }

  /** Splitting a join of separator-free pieces gives back the pieces. */
  lemma {:induction false} SplitJoin(ws: seq<string>, sep: char)
    requires |ws| >= 1
    requires forall i :: 0 <= i < |ws| ==> sep !in ws[i]
    ensures SplitOn(JoinWith(ws, sep), sep) == ws
    decreases |ws|, |ws[0]|
  {
    if |ws| == 1 {
      SplitOfSeparatorFree(ws[0], sep);
    } else if |ws[0]| == 0 {
      var tail := ws[1..];
      SplitJoin(tail, sep);
      var s := JoinWith(ws, sep);
      assert s == [sep] + JoinWith(tail, sep);
      assert s[1..] == JoinWith(tail, sep);
      assert ws == [""] + tail;
    } else {
      var c := ws[0][0];
      var ws' := [ws[0][1..]] + ws[1..];
      assert ws'[1..] == ws[1..];
      SplitJoin(ws', sep);
      var s := JoinWith(ws, sep);
      assert s == [c] + JoinWith(ws', sep);
      assert s[1..] == JoinWith(ws', sep);
      assert [c] + ws'[0] == ws[0];
      assert ws == [[c] + ws'[0]] + ws'[1..];
    }
  }

  /** A string without the separator splits into itself alone. */
  lemma {:induction false} SplitOfSeparatorFree(s: string, sep: char)
    requires sep !in s
    ensures SplitOn(s, sep) == [s]
    decreases |s|
  {
    if |s| > 0 {
      SplitOfSeparatorFree(s[1..], sep);
      assert [s[0]] + s[1..] == s;
    }
  }

  /** Every character of a join is a character of some piece or the separator. */
  lemma {:induction false} JoinWithChars(ws: seq<string>, sep: char, c: char)
    requires c in JoinWith(ws, sep)
    ensures c == sep || exists i :: 0 <= i < |ws| && c in ws[i]
    decreases |ws|
  {
    if |ws| >= 2 {
      var tail := JoinWith(ws[1..], sep);
      assert JoinWith(ws, sep) == ws[0] + [sep] + tail;
      if c !in ws[0] && c != sep {
        assert c in tail;
        JoinWithChars(ws[1..], sep, c);
        var i :| 0 <= i < |ws[1..]| && c in ws[1..][i];
        assert c in ws[i + 1];
      }
    }
  }
}
