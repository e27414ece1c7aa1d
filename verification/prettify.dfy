/** `prettify_name` of egui_field_editor_derive/src/utils.rs: turns a Rust
    identifier such as `snake_case` into the label `Snake Case`, and `vec3`
    into `Vec 3`.

    The identifier is split on `_`, empty pieces are dropped, each remaining
    word has its first character upper-cased and a trailing run of ASCII
    digits split off by one space, and the words are joined with single
    spaces.

    The source locates the digit run by a BYTE index (`i + 1` after the last
    non-digit character) and cuts with `str::split_at`, which panics when the
    index falls inside a multi-byte character. `PrettifyNameAsWritten` models
    that; `PrettifyName` is the evidently intended cut after the character,
    and is what the rest of the model uses. */
module Prettify {
  import opened Wrappers
  import opened Text

  /** Index where the maximal trailing run of ASCII digits of `w` starts. */
  function TrailingDigitsStart(w: string): (k: nat)
    ensures k <= |w|
    ensures forall j :: k <= j < |w| ==> IsAsciiDigit(w[j])
    ensures k > 0 ==> !IsAsciiDigit(w[k - 1])
  {
    if |w| == 0 then 0
    else if IsAsciiDigit(w[|w| - 1]) then TrailingDigitsStart(w[..|w| - 1])
    else |w|
  }

  /** The digit run found by `TrailingDigitsStart` is the only split of `w`
      into a part not ending in a digit and an all-digit part. */
  lemma TrailingDigitsStartUnique(letters: string, digits: string)
    requires |letters| == 0 || !IsAsciiDigit(letters[|letters| - 1])
    requires AllDigits(digits)
    ensures TrailingDigitsStart(letters + digits) == |letters|
  {
    var w := letters + digits;
    assert |letters| > 0 ==> w[|letters| - 1] == letters[|letters| - 1];
    assert forall j :: |letters| <= j < |w| ==> w[j] == digits[j - |letters|];
  }

  /** First character upper-cased, the rest kept in case and order. */
  function Capitalize(s: string): (r: string)
    ensures |r| == |s|
  {
    if |s| == 0 then "" else [ToUpperAscii(s[0])] + s[1..]
  }

  /** A word made of a non-digit-ended part and a digit part, as
      `format!("{capitalized} {digits}")` assembles it. */
  function Assemble(letters: string, digits: string): string
  {
    var cap := Capitalize(letters);
    if |digits| == 0 then cap else cap + " " + digits
  }

  /** The per-word step of `prettify_name`. */
  function PrettifyWord(w: string): string
  {
    var k := TrailingDigitsStart(w);
    Assemble(w[..k], w[k..])
  }

  /** The word-level rule stated independently: for any word written as a
      part not ending in a digit followed by a run of digits, the digits are
      split off by one space and only the first character of the part is
      upper-cased. */
  lemma PrettifyWordSpec(letters: string, digits: string)
    requires |letters| == 0 || !IsAsciiDigit(letters[|letters| - 1])
    requires AllDigits(digits)
    ensures |digits| == 0 ==> PrettifyWord(letters + digits) == Capitalize(letters)
    ensures |digits| > 0 ==> PrettifyWord(letters + digits) == Capitalize(letters) + " " + digits
    ensures |letters| > 0 ==>
      PrettifyWord(letters + digits)[0] == ToUpperAscii(letters[0]) &&
      PrettifyWord(letters + digits)[1..|letters|] == letters[1..]
  {
    PrettifyWordSplit(letters, digits);
    if |letters| > 0 {
      var p := PrettifyWord(letters + digits);
      assert p[..|letters|] == Capitalize(letters);
      assert p[1..|letters|] == Capitalize(letters)[1..];
    }
  }

  /** The per-word step cuts exactly between the part and its digits. */
  lemma PrettifyWordSplit(letters: string, digits: string)
    requires |letters| == 0 || !IsAsciiDigit(letters[|letters| - 1])
    requires AllDigits(digits)
    ensures PrettifyWord(letters + digits) == Assemble(letters, digits)
  {
    TrailingDigitsStartUnique(letters, digits);
    var w := letters + digits;
    assert w[..|letters|] == letters;
    assert w[|letters|..] == digits;
  }

  /** A word made only of digits becomes a space followed by the digits. */
  lemma AllDigitWord(digits: string)
    requires |digits| > 0 && AllDigits(digits)
    ensures PrettifyWord(digits) == " " + digits
  {
    PrettifyWordSpec("", digits);
    assert "" + digits == digits;
  }

  /** The words that survive the `filter(|part| !part.is_empty())` step. */
  function NonEmptyWords(ws: seq<string>): (r: seq<string>)
    ensures forall i :: 0 <= i < |r| ==> |r[i]| > 0
    ensures |r| <= |ws|
  {
    if |ws| == 0 then []
    else if |ws[0]| == 0 then NonEmptyWords(ws[1..])
    else [ws[0]] + NonEmptyWords(ws[1..])
  }

  function PrettifyWords(ws: seq<string>): (r: seq<string>)
    ensures |r| == |ws|
  {
    if |ws| == 0 then [] else [PrettifyWord(ws[0])] + PrettifyWords(ws[1..])
  }

  /** `prettify_name`. */
  function PrettifyName(s: string): string
  {
    JoinWith(PrettifyWords(NonEmptyWords(SplitOn(s, '_'))), ' ')
  }

  // ---------------------------------------------------------------------
  // Properties

  lemma {:induction false} PrettifyWordNoUnderscore(w: string)
    requires '_' !in w
    ensures '_' !in PrettifyWord(w)
  {
    var k := TrailingDigitsStart(w);
    var letters, digits := w[..k], w[k..];
    assert forall c :: c in letters ==> c in w;
    assert forall c :: c in digits ==> c in w;
    if |letters| > 0 {
      assert Capitalize(letters)[1..] == letters[1..];
      assert forall c :: c in Capitalize(letters) ==> c == ToUpperAscii(letters[0]) || c in letters[1..];
    }
  }

  lemma {:induction false} PrettifyWordsNoUnderscore(ws: seq<string>)
    requires forall i :: 0 <= i < |ws| ==> '_' !in ws[i]
    ensures forall i :: 0 <= i < |ws| ==> '_' !in PrettifyWords(ws)[i]
    decreases |ws|
  {
    if |ws| > 0 {
      PrettifyWordsNoUnderscore(ws[1..]);
      var r := PrettifyWords(ws);
      var tail := PrettifyWords(ws[1..]);
      assert r == [PrettifyWord(ws[0])] + tail;
      forall i | 0 <= i < |ws|
        ensures '_' !in r[i]
      {
        if i == 0 {
          PrettifyWordNoUnderscore(ws[0]);
        } else {
          assert r[i] == tail[i - 1];
          assert '_' !in ws[1..][i - 1];
        }
      }
    }
  }

  lemma {:induction false} NonEmptyWordsKeep(ws: seq<string>, c: char)
    requires forall i :: 0 <= i < |ws| ==> c !in ws[i]
    ensures forall i :: 0 <= i < |NonEmptyWords(ws)| ==> c !in NonEmptyWords(ws)[i]
    decreases |ws|
  {
    if |ws| > 0 {
      NonEmptyWordsKeep(ws[1..], c);
    }
  }

  /** A prettified name never contains `_`, and `""` prettifies to `""`. */
  lemma PrettifyNameNoUnderscore(s: string)
    ensures '_' !in PrettifyName(s)
    ensures s == "" ==> PrettifyName(s) == ""
  {
    var pieces := SplitOn(s, '_');
    NonEmptyWordsKeep(pieces, '_');
    var words := NonEmptyWords(pieces);
    PrettifyWordsNoUnderscore(words);
    var out := PrettifyWords(words);
    if '_' in JoinWith(out, ' ') {
      JoinWithChars(out, ' ', '_');
    }
  }

  /** Prettifying a `_`-join of `_`-free pieces drops the empty pieces,
      prettifies each remaining word on its own and joins them with single
      spaces — the whole rule, stated on the words rather than the string. */
  lemma PrettifyJoinedWords(ws: seq<string>)
    requires |ws| >= 1
    requires forall i :: 0 <= i < |ws| ==> '_' !in ws[i]
    ensures PrettifyName(JoinWith(ws, '_')) == JoinWith(PrettifyWords(NonEmptyWords(ws)), ' ')
  {
    SplitJoin(ws, '_');
  }

  /** An identifier without `_` is prettified as a single word. */
  lemma PrettifySingleWord(w: string)
    requires |w| > 0 && '_' !in w
    ensures PrettifyName(w) == PrettifyWord(w)
  {
    SplitOfSeparatorFree(w, '_');
    assert NonEmptyWords([w]) == [w];
  }

  /** The default label of the i-th unnamed field, `Field i`, prettifies to
      `Field  i` (two spaces): the space is not a digit, so the digits are
      split off once more. */
  lemma PrettifyFieldIndex(i: nat)
    ensures PrettifyName("Field " + NatToDecimal(i)) == "Field  " + NatToDecimal(i)
  {
    var d := NatToDecimal(i);
    var w := "Field " + d;
    FieldPrefixParts();
    forall j | 0 <= j < |w|
      ensures w[j] != '_'
    {
      if j >= |"Field "| {
        assert w[j] == d[j - |"Field "|];
      }
    }
    PrettifyOneWord("Field ", d);
  }

  lemma FieldPrefixParts()
    ensures |"Field "| == 6 && !IsAsciiDigit("Field "[5]) && '_' !in "Field "
    ensures Capitalize("Field ") == "Field "
  {
  }

  /** An identifier without `_` made of a part not ending in a digit and
      a run of digits is prettified as that one word. */
  lemma PrettifyOneWord(letters: string, digits: string)
    requires |letters| > 0 && !IsAsciiDigit(letters[|letters| - 1])
    requires AllDigits(digits)
    requires '_' !in letters + digits
    ensures PrettifyName(letters + digits) == Assemble(letters, digits)
  {
    PrettifySingleWord(letters + digits);
    PrettifyWordSplit(letters, digits);
  }

  lemma PrettifyExampleVec()
    ensures PrettifyName("vec3") == "Vec 3"
  {
    VecParts();
    PrettifyOneWord("vec", "3");
  }

  lemma VecParts()
    ensures "vec" + "3" == "vec3" && '_' !in "vec3"
    ensures !IsAsciiDigit("vec"[2]) && AllDigits("3")
    ensures Assemble("vec", "3") == "Vec 3"
  {
    assert ToUpperAscii('v') == 'V';
  }

  /** Only the trailing digits of a word are split off: digits inside the
      word stay where they are. */
  lemma PrettifyExampleMat()
    ensures PrettifyName("mat4x4") == "Mat4x 4"
  {
    MatParts();
    PrettifyOneWord("mat4x", "4");
  }

  lemma MatParts()
    ensures "mat4x" + "4" == "mat4x4" && '_' !in "mat4x4"
    ensures !IsAsciiDigit("mat4x"[4]) && AllDigits("4")
    ensures Assemble("mat4x", "4") == "Mat4x 4"
  {
    assert ToUpperAscii('m') == 'M';
  }

  lemma PrettifyExampleDigitWord()
    ensures PrettifyName("a_1") == "A  1"
  {
    DigitWordJoin();
    PrettifyJoinedWords(["a", "1"]);
    DigitWordWords();
  }

  lemma DigitWordJoin()
    ensures JoinWith(["a", "1"], '_') == "a_1"
  {
    assert ["a", "1"][1..] == ["1"];
  }

  lemma DigitWordWords()
    ensures JoinWith(PrettifyWords(NonEmptyWords(["a", "1"])), ' ') == "A  1"
  {
    assert ["a", "1"] == ["a"] + ["1"];
    assert NonEmptyWords(["1"]) == ["1"];
    NonEmptyWordsCons("a", ["1"]);
    AllDigitWord("1");
    PrettifySingleWordIsCapitalized("a");
    PrettifyWordsCons("1", []);
    PrettifyWordsCons("a", ["1"]);
    assert PrettifyWord("1") == " 1";
    assert ToUpperAscii('a') == 'A';
    assert PrettifyWord("a") == "A";
    assert PrettifyWords(["1"]) == [" 1"];
    assert PrettifyWords(["a", "1"]) == ["A", " 1"];
    assert ["A", " 1"][1..] == [" 1"];
  }

  lemma PrettifyExampleSnakeCase()
    ensures PrettifyName("snake_case_3") == "Snake Case  3"
  {
    var ws := ["snake", "case", "3"];
    SnakeCaseJoin();
    PrettifyJoinedWords(ws);
    SnakeCaseWords();
    SnakeCaseOut();
  }

  lemma SnakeCaseJoin()
    ensures JoinWith(["snake", "case", "3"], '_') == "snake_case_3"
  {
    var ws := ["snake", "case", "3"];
    assert ws[1..] == ["case", "3"];
  }

  lemma SnakeCaseWords()
    ensures PrettifyWords(NonEmptyWords(["snake", "case", "3"])) == ["Snake", "Case", " 3"]
  {
    var ws := ["snake", "case", "3"];
    assert ws == ["snake"] + (["case"] + ["3"]);
    assert NonEmptyWords(["3"]) == ["3"];
    NonEmptyWordsCons("case", ["3"]);
    NonEmptyWordsCons("snake", ["case"] + ["3"]);
    AllDigitWord("3");
    PrettifySingleWordIsCapitalized("snake");
    PrettifySingleWordIsCapitalized("case");
    PrettifyWordsCons("3", []);
    PrettifyWordsCons("case", ["3"]);
    PrettifyWordsCons("snake", ["case"] + ["3"]);
    assert PrettifyWord("3") == " 3";
    assert Capitalize("case") == "Case";
    assert PrettifyWord("case") == "Case";
    assert PrettifyWord("snake") == "Snake";
    assert PrettifyWords(["3"]) == [" 3"];
    assert PrettifyWords(["case"] + ["3"]) == ["Case", " 3"];
  }

  lemma NonEmptyWordsCons(w: string, ws: seq<string>)
    requires |w| > 0
    ensures NonEmptyWords([w] + ws) == [w] + NonEmptyWords(ws)
  {
    assert ([w] + ws)[1..] == ws;
  }

  lemma PrettifyWordsCons(w: string, ws: seq<string>)
    ensures PrettifyWords([w] + ws) == [PrettifyWord(w)] + PrettifyWords(ws)
  {
    assert ([w] + ws)[1..] == ws;
  }

  lemma SnakeCaseOut()
    ensures JoinWith(["Snake", "Case", " 3"], ' ') == "Snake Case  3"
  {
    var out := ["Snake", "Case", " 3"];
    assert out[1..] == ["Case", " 3"];
    assert ["Case", " 3"][1..] == [" 3"];
    assert JoinWith(["Case", " 3"], ' ') == "Case" + " " + " 3";
  }

  lemma PrettifyExampleEmptyPieces()
    ensures PrettifyName("__x__") == "X"
  {
    var ws := ["", "", "x", "", ""];
    PrettifyJoinedWords(ws);
    assert JoinWith(ws, '_') == "__x__";
    assert NonEmptyWords(ws) == ["x"];
    PrettifySingleWordIsCapitalized("x");
  }

  /** A word without digits at its end is only capitalised. */
  lemma PrettifySingleWordIsCapitalized(w: string)
    requires |w| == 0 || !IsAsciiDigit(w[|w| - 1])
    ensures PrettifyWord(w) == Capitalize(w)
  {
    PrettifyWordSpec(w, "");
    assert w + "" == w;
  }

  // ---------------------------------------------------------------------
  // The byte-index cut as written

  /** Bytes of `c` in UTF-8, the encoding of Rust's `str`. */
  function Utf8Width(c: char): (n: nat)
    ensures 1 <= n <= 4
    ensures n == 1 <==> c as int < 0x80
  {
    if c as int < 0x80 then 1
    else if c as int < 0x800 then 2
    else if c as int < 0x1_0000 then 3
    else 4
  }

  /** Length of `s` in UTF-8 bytes (Rust's `str::len`). */
  function ByteLen(s: string): nat
  {
    if |s| == 0 then 0 else Utf8Width(s[0]) + ByteLen(s[1..])
  }

  lemma {:induction false} ByteLenAppend(s: string, c: char)
    ensures ByteLen(s + [c]) == ByteLen(s) + Utf8Width(c)
    decreases |s|
  {
    if |s| > 0 {
      assert (s + [c])[1..] == s[1..] + [c];
      ByteLenAppend(s[1..], c);
    }
  }

  /** Byte offsets of character positions grow strictly. */
  lemma {:induction false} ByteLenPrefixMonotone(s: string, i: nat, j: nat)
    requires i < j <= |s|
    ensures ByteLen(s[..i]) + Utf8Width(s[j - 1]) <= ByteLen(s[..j])
    ensures ByteLen(s[..i]) < ByteLen(s[..j])
    decreases j - i
  {
    assert s[..j] == s[..j - 1] + [s[j - 1]];
    ByteLenAppend(s[..j - 1], s[j - 1]);
    if i < j - 1 {
      ByteLenPrefixMonotone(s, i, j - 1);
    }
  }

  /** The character position at byte offset `b`, if `b` is a character
      boundary of `s` (what `str::split_at` checks before cutting). */
  function CharIndexAtByte(s: string, b: nat): (r: Option<nat>)
    ensures r.Some? ==> r.value <= |s| && ByteLen(s[..r.value]) == b
    ensures r.None? ==> forall j :: 0 <= j <= |s| ==> ByteLen(s[..j]) != b
    decreases |s|
  {
    if b == 0 then
      assert ByteLen(s[..0]) == 0;
      Some(0)
    else if |s| == 0 then None
    else
      assert forall j :: 1 <= j <= |s| ==> ByteLen(s[..j]) == Utf8Width(s[0]) + ByteLen(s[1..][..j - 1]) by {
        forall j | 1 <= j <= |s|
          ensures ByteLen(s[..j]) == Utf8Width(s[0]) + ByteLen(s[1..][..j - 1])
        {
          ByteLenPrefixStep(s, j);
        }
      }
      if b < Utf8Width(s[0]) then None
      else
        match CharIndexAtByte(s[1..], b - Utf8Width(s[0]))
        case None => None
        case Some(j) => Some(j + 1)
  }

  lemma ByteLenPrefixStep(s: string, j: nat)
    requires 1 <= j <= |s|
    ensures ByteLen(s[..j]) == Utf8Width(s[0]) + ByteLen(s[1..][..j - 1])
  {
    assert s[..j][0] == s[0];
    assert s[..j][1..] == s[1..][..j - 1];
  }

  /** The per-word step as written: `split_index` is one byte past the START
      of the last non-digit character, and `split_at` panics (here: `None`)
      when that is not a character boundary. */
  function PrettifyWordAsWritten(w: string): Option<string>
  {
    var k := TrailingDigitsStart(w);
    var splitByte := if k == 0 then 0 else ByteLen(w[..k - 1]) + 1;
    match CharIndexAtByte(w, splitByte)
    case None => None
    case Some(j) => Some(Assemble(w[..j], w[j..]))
  }

  /** The written cut agrees with the intended one exactly when the last
      non-digit character is one byte long, and panics otherwise. */
  lemma PrettifyWordAsWrittenAgrees(w: string)
    ensures var k := TrailingDigitsStart(w);
      PrettifyWordAsWritten(w) == (if k == 0 || w[k - 1] as int < 0x80 then Some(PrettifyWord(w)) else None)
  {
    var k := TrailingDigitsStart(w);
    if k > 0 {
      var b := ByteLen(w[..k - 1]) + 1;
      assert w[..k] == w[..k - 1] + [w[k - 1]];
      ByteLenAppend(w[..k - 1], w[k - 1]);
      match CharIndexAtByte(w, b)
      case None =>
        if w[k - 1] as int < 0x80 {
          assert ByteLen(w[..k]) == b;
        }
      case Some(j) =>
        if j < k - 1 {
          ByteLenPrefixMonotone(w, j, k - 1);
        } else if j >= k {
          if j > k {
            ByteLenPrefixMonotone(w, k, j);
          }
          assert ByteLen(w[..k]) <= b;
        }
        assert j == k - 1 || j == k;
        assert j == k;
    } else {
      assert CharIndexAtByte(w, 0) == Some(0);
    }
  }

  function PrettifyWordsAsWritten(ws: seq<string>): Option<seq<string>>
  {
    if |ws| == 0 then Some([])
    else match (PrettifyWordAsWritten(ws[0]), PrettifyWordsAsWritten(ws[1..]))
      case (Some(p), Some(ps)) => Some([p] + ps)
      case _ => None
  }

  /** `prettify_name` as written: `None` stands for the panic of `split_at`. */
  function PrettifyNameAsWritten(s: string): Option<string>
  {
    match PrettifyWordsAsWritten(NonEmptyWords(SplitOn(s, '_')))
    case None => None
    case Some(ps) => Some(JoinWith(ps, ' '))
  }

  /** Whether the last non-digit character of `w` (if any) is ASCII, the
      condition under which the written byte cut is harmless. */
  predicate CutIsAscii(w: string) {
    var k := TrailingDigitsStart(w);
    k == 0 || w[k - 1] as int < 0x80
  }

  lemma {:induction false} PrettifyWordsAsWrittenAgrees(ws: seq<string>)
    ensures (forall i :: 0 <= i < |ws| ==> CutIsAscii(ws[i])) ==> PrettifyWordsAsWritten(ws) == Some(PrettifyWords(ws))
    ensures (exists i :: 0 <= i < |ws| && !CutIsAscii(ws[i])) ==> PrettifyWordsAsWritten(ws) == None
    decreases |ws|
  {
    if |ws| > 0 {
      PrettifyWordAsWrittenAgrees(ws[0]);
      PrettifyWordsAsWrittenAgrees(ws[1..]);
      if exists i :: 0 <= i < |ws| && !CutIsAscii(ws[i]) {
        var i :| 0 <= i < |ws| && !CutIsAscii(ws[i]);
        if i > 0 {
          assert !CutIsAscii(ws[1..][i - 1]);
        }
      }
    }
  }

  /** On identifiers whose words all end their letter part in an ASCII
      character — every ASCII identifier in particular — the written
      function returns the intended label. */
  lemma PrettifyNameAsWrittenOnAscii(s: string)
    requires forall i :: 0 <= i < |s| ==> s[i] as int < 0x80
    ensures PrettifyNameAsWritten(s) == Some(PrettifyName(s))
  {
    var words := NonEmptyWords(SplitOn(s, '_'));
    forall i | 0 <= i < |words|
      ensures CutIsAscii(words[i])
    {
      var w := words[i];
      var k := TrailingDigitsStart(w);
      if k > 0 {
        assert w[k - 1] in w;
        NonEmptyWordsMember(SplitOn(s, '_'), i);
        var j :| 0 <= j < |SplitOn(s, '_')| && SplitOn(s, '_')[j] == w;
        JoinSplit(s, '_');
        JoinWithMember(SplitOn(s, '_'), '_', j, w[k - 1]);
      }
    }
    PrettifyWordsAsWrittenAgrees(words);
  }

  lemma {:induction false} NonEmptyWordsMember(ws: seq<string>, i: nat)
    requires i < |NonEmptyWords(ws)|
    ensures exists j :: 0 <= j < |ws| && ws[j] == NonEmptyWords(ws)[i]
    decreases |ws|
  {
    if |ws[0]| == 0 {
      NonEmptyWordsMember(ws[1..], i);
      var j :| 0 <= j < |ws[1..]| && ws[1..][j] == NonEmptyWords(ws[1..])[i];
      assert ws[j + 1] == ws[1..][j];
    } else if i > 0 {
      NonEmptyWordsMember(ws[1..], i - 1);
      var j :| 0 <= j < |ws[1..]| && ws[1..][j] == NonEmptyWords(ws[1..])[i - 1];
      assert ws[j + 1] == ws[1..][j];
    }
  }

  lemma {:induction false} JoinWithMember(ws: seq<string>, sep: char, j: nat, c: char)
    requires j < |ws| && c in ws[j]
    ensures c in JoinWith(ws, sep)
    decreases |ws|
  {
    if |ws| >= 2 && j > 0 {
      JoinWithMember(ws[1..], sep, j - 1, c);
    }
  }

  /** A word whose last letter is multi-byte makes the written function
      panic: `"é"` (two bytes) is cut at byte 1. */
  lemma PrettifyNameAsWrittenPanics()
    ensures PrettifyNameAsWritten("é") == None
  {
    SplitOfSeparatorFree("é", '_');
    assert NonEmptyWords(["é"]) == ["é"];
    assert !CutIsAscii(["é"][0]);
    PrettifyWordsAsWrittenAgrees(["é"]);
  }

  /** The intended function labels the same identifier without trouble. */
  lemma PrettifyNameIntendedOnWideChar()
    ensures PrettifyName("café") == "Café"
  {
    PrettifySingleWord("café");
    PrettifySingleWordIsCapitalized("café");
  }
}
