/** Option and Result, as the other modules use them for the source's nil and error returns. */
module Wrappers {
  datatype Option<+T> = None | Some(value: T)
  datatype Result<+T, +E> = Ok(value: T) | Err(error: E)
}

/**
 The string operations the firewall code leans on: decimal printing and scanning,
 splitting and joining on a separator, whitespace fields and cutset trimming.
 Every recursive definition peels the last character, so that a loop that walks a
 text from the left unfolds it once per step.
 */
module Text {
  import opened Wrappers

  // ---------- characters and words ----------

  const SPACES: set<char> := {' ', '\t', '\n', '\r', '\U{0b}', '\U{0c}'}

  predicate IsDigit(c: char) { '0' <= c <= '9' }

  predicate IsSpace(c: char) { c in SPACES }

  predicate Digits(s: string) { forall i :: 0 <= i < |s| ==> IsDigit(s[i]) }

  predicate Free(s: string, c: char) { c !in s }

  predicate NoSpace(s: string) { forall i :: 0 <= i < |s| ==> !IsSpace(s[i]) }

  /** A non-empty run of characters without white space: one shell or log field. */
  predicate Word(s: string) { s != "" && NoSpace(s) }

  // ---------- decimal numbers ----------

  function DigitChar(d: nat): char
    requires d < 10
  {
    ('0' as int + d) as char
  }

  function DigitVal(c: char): nat
    requires IsDigit(c)
  {
    c as int - '0' as int
  }

  /** `%d` of a non-negative number. */
  function Dec(n: nat): string {
    if n < 10 then [DigitChar(n)] else Dec(n / 10) + [DigitChar(n % 10)]
  }

  /** The number a run of digits denotes; leading zeros are allowed. */
  function Val(s: string): nat
    requires Digits(s)
  {
    if s == "" then 0 else Val(s[..|s| - 1]) * 10 + DigitVal(s[|s| - 1])
  }

  predicate Canonical(s: string) {
    s != "" && Digits(s) && (|s| == 1 || s[0] != '0')
  }

  lemma {:induction false} DecPrints(n: nat)
    ensures Canonical(Dec(n)) && Val(Dec(n)) == n
    ensures n > 0 ==> Dec(n)[0] != '0'
  {
    if n >= 10 {
      DecPrints(n / 10);
      assert Dec(n)[..|Dec(n)| - 1] == Dec(n / 10);
    }
  }

  lemma {:induction false} CanonicalReadsBack(s: string)
    requires Canonical(s)
    ensures Dec(Val(s)) == s
    ensures s[0] != '0' ==> Val(s) > 0
  {
    if |s| == 1 {
      assert s[..0] == "";
      assert Val(s) == DigitVal(s[0]);
      assert s == [s[0]];
    } else {
      CanonicalReadsBack(s[..|s| - 1]);
      assert Val(s) / 10 == Val(s[..|s| - 1]) && Val(s) % 10 == DigitVal(s[|s| - 1]);
    }
  }

  lemma DecInjective(m: nat, n: nat)
    requires Dec(m) == Dec(n)
    ensures m == n
  {
    DecPrints(m);
    DecPrints(n);
  }

  lemma DecIsWord(n: nat)
    ensures Word(Dec(n)) && Free(Dec(n), ',') && Free(Dec(n), ' ')
  {
    DecPrints(n);
  }

  /** The longest leading run of digits. */
  function DigitPrefix(s: string): (r: string)
    ensures Digits(r) && r <= s
    ensures |r| < |s| ==> !IsDigit(s[|r|])
  {
    if s != "" && IsDigit(s[0]) then [s[0]] + DigitPrefix(s[1..]) else ""
  }

  /** `Sscanf(s, "%d", &n)` on a field: an optional sign, then at least one digit; the rest is not looked at. */
  function ScanInt(s: string): Option<int> {
    if s != "" && (s[0] == '-' || s[0] == '+') then
      var d := DigitPrefix(s[1..]);
      if d == "" then None else var n: int := Val(d);
        Some(if s[0] == '-' then -n else n)
    else
      var d := DigitPrefix(s);
      if d == "" then None else Some(Val(d))
  }

  lemma {:induction false} DigitPrefixStops(d: string, rest: string)
    requires Digits(d) && (rest == "" || !IsDigit(rest[0]))
    ensures DigitPrefix(d + rest) == d
  {
    if d == "" {
      assert d + rest == rest;
    } else {
      assert (d + rest)[1..] == d[1..] + rest;
      DigitPrefixStops(d[1..], rest);
    }
  }

  lemma ScanDec(n: nat, rest: string)
    requires rest == "" || !IsDigit(rest[0])
    ensures ScanInt(Dec(n) + rest) == Some(n)
  {
    DecPrints(n);
    DigitPrefixStops(Dec(n), rest);
    assert (Dec(n) + rest)[0] == Dec(n)[0];
  }

  /** A sign is read as one. */
  lemma ScanSigned(n: nat, rest: string)
    requires rest == "" || !IsDigit(rest[0])
    ensures ScanInt("-" + (Dec(n) + rest)) == Some(0 - n) && ScanInt("+" + (Dec(n) + rest)) == Some(n)
  {
    hide Dec, Val, DigitPrefix;
    DecPrints(n);
    DigitPrefixStops(Dec(n), rest);
    var d := Dec(n) + rest;
    assert ("-" + d)[1..] == d && ("+" + d)[1..] == d;
  }

  /** What starts with neither sign nor digit is no number. */
  lemma ScanNothing(s: string)
    requires s == "" || (!IsDigit(s[0]) && s[0] != '-' && s[0] != '+')
    ensures ScanInt(s) == None
  {
  }

  // ---------- split and join on a separator ----------

  /** The last piece grows by a text. */
  function Grow(r: seq<string>, t: string): (g: seq<string>)
    requires |r| >= 1
    ensures |g| == |r|
  {
    r[..|r| - 1] + [r[|r| - 1] + t]
  }

  function Split(s: string, sep: char): (r: seq<string>)
    ensures |r| >= 1
  {
    if s == "" then [""]
    else
      var r := Split(s[..|s| - 1], sep);
      var c := s[|s| - 1];
      if c == sep then r + [""] else Grow(r, [c])
  }

  function Join(parts: seq<string>, sep: char): string {
    if parts == [] then ""
    else if |parts| == 1 then parts[0]
    else Join(parts[..|parts| - 1], sep) + [sep] + parts[|parts| - 1]
  }

  lemma {:induction false} SplitFree(s: string, sep: char, i: nat)
    requires i < |Split(s, sep)|
    ensures Free(Split(s, sep)[i], sep)
  {
    if s != "" {
      var r := Split(s[..|s| - 1], sep);
      if i < |r| {
        SplitFree(s[..|s| - 1], sep, i);
      }
    }
  }

  lemma SplitStep(a: string, c: char, sep: char)
    ensures Split(a + [c], sep) == if c == sep then Split(a, sep) + [""] else Grow(Split(a, sep), [c])
  {
    assert (a + [c])[..|a|] == a;
  }

  lemma GrowTwice(r: seq<string>, t: string, u: string)
    requires |r| >= 1
    ensures Grow(Grow(r, t), u) == Grow(r, t + u)
  {
    var n := |r| - 1;
    assert Grow(r, t)[..n] == r[..n];
    assert (r[n] + t) + u == r[n] + (t + u);
  }

  lemma SplitExtendStep(a: string, b: string, c: char, sep: char)
    requires c != sep && Split(a + b, sep) == Grow(Split(a, sep), b)
    ensures Split(a + b + [c], sep) == Grow(Split(a, sep), b + [c])
  {
    SplitStep(a + b, c, sep);
    GrowTwice(Split(a, sep), b, [c]);
  }

  lemma {:induction false} SplitExtend(a: string, b: string, sep: char)
    requires Free(b, sep)
    ensures Split(a + b, sep) == Grow(Split(a, sep), b)
  {
    if b == "" {
      var r := Split(a, sep);
      assert a + b == a && r[|r| - 1] + b == r[|r| - 1];
      assert r == r[..|r| - 1] + [r[|r| - 1]];
    } else {
      var n := |b| - 1;
      var b', c := b[..n], b[n];
      assert b == b' + [c] && a + b == a + b' + [c];
      assert c in b;
      SplitExtend(a, b', sep);
      SplitExtendStep(a, b', c, sep);
    }
  }

  lemma SplitWhole(s: string, sep: char)
    requires Free(s, sep)
    ensures Split(s, sep) == [s]
  {
    SplitExtend("", s, sep);
    assert "" + s == s;
  }

  lemma SplitSnoc(a: string, b: string, sep: char)
    requires Free(b, sep)
    ensures Split(a + [sep] + b, sep) == Split(a, sep) + [b]
  {
    SplitExtend(a + [sep], b, sep);
    SplitStep(a, sep, sep);
    assert "" + b == b;
  }

  lemma JoinSnoc(parts: seq<string>, last: string, sep: char)
    requires parts != []
    ensures Join(parts + [last], sep) == Join(parts, sep) + [sep] + last
  {
    assert (parts + [last])[..|parts|] == parts;
  }

  lemma JoinGrow(r: seq<string>, t: string, sep: char)
    requires |r| >= 1
    ensures Join(Grow(r, t), sep) == Join(r, sep) + t
  {
    var n := |r| - 1;
    assert r == r[..n] + [r[n]];
    if n > 0 {
      JoinSnoc(r[..n], r[n] + t, sep);
      JoinSnoc(r[..n], r[n], sep);
    }
  }

  lemma {:induction false} JoinSplit(s: string, sep: char)
    ensures Join(Split(s, sep), sep) == s
  {
    if s != "" {
      var s', c := s[..|s| - 1], s[|s| - 1];
      assert s == s' + [c];
      JoinSplit(s', sep);
      if c == sep {
        JoinSnoc(Split(s', sep), "", sep);
      } else {
        JoinGrow(Split(s', sep), [c], sep);
      }
    }
  }

  lemma {:induction false} SplitJoin(parts: seq<string>, sep: char)
    requires parts != []
    requires forall i :: 0 <= i < |parts| ==> Free(parts[i], sep)
    ensures Split(Join(parts, sep), sep) == parts
  {
    var n := |parts| - 1;
    assert parts == parts[..n] + [parts[n]];
    if n == 0 {
      SplitWhole(parts[0], sep);
    } else {
      SplitJoin(parts[..n], sep);
      JoinSnoc(parts[..n], parts[n], sep);
      SplitSnoc(Join(parts[..n], sep), parts[n], sep);
    }
  }

  lemma {:induction false} JoinFree(parts: seq<string>, sep: char, c: char)
    requires c != sep
    requires forall i :: 0 <= i < |parts| ==> Free(parts[i], c)
    ensures Free(Join(parts, sep), c)
  {
    if |parts| > 1 {
      JoinFree(parts[..|parts| - 1], sep, c);
    }
  }

  lemma {:induction false} JoinNoSpace(parts: seq<string>, sep: char)
    requires !IsSpace(sep)
    requires forall i :: 0 <= i < |parts| ==> NoSpace(parts[i])
    ensures NoSpace(Join(parts, sep))
  {
    if |parts| > 1 {
      JoinNoSpace(parts[..|parts| - 1], sep);
    }
  }

  lemma JoinNonEmpty(parts: seq<string>, sep: char)
    requires parts != [] && parts[|parts| - 1] != ""
    ensures Join(parts, sep) != ""
  {
  }

  // ---------- whitespace fields ----------

  /** strings.Fields: the maximal runs of non-space characters, in order. */
  function Fields(s: string): (r: seq<string>)
    ensures s != "" && !IsSpace(s[|s| - 1]) ==> r != []
  {
    if s == "" then []
    else
      var n := |s| - 1;
      var r := Fields(s[..n]);
      if IsSpace(s[n]) then r
      else if n > 0 && !IsSpace(s[n - 1]) then
        assert s[..n][|s[..n]| - 1] == s[n - 1];
        r[..|r| - 1] + [r[|r| - 1] + [s[n]]]
      else r + [[s[n]]]
  }

  /** A word that follows white space (or starts the text) becomes one more field. */
  lemma {:induction false} FieldsWord(a: string, w: string)
    requires Word(w) && (a == "" || IsSpace(a[|a| - 1]))
    ensures Fields(a + w) == Fields(a) + [w]
  {
    var n := |w| - 1;
    assert (a + w)[..|a + w| - 1] == a + w[..n];
    if n == 0 {
      assert a + w[..n] == a;
      assert w == [w[0]];
    } else {
      FieldsWord(a, w[..n]);
      assert w == w[..n] + [w[n]];
    }
  }

  lemma FieldsOne(w: string)
    requires Word(w)
    ensures Fields(w) == [w]
  {
    FieldsWord("", w);
    assert "" + w == w;
  }

  lemma FieldsSpace(a: string)
    ensures Fields(a + " ") == Fields(a)
  {
    assert (a + " ")[..|a + " "| - 1] == a;
  }

  /** One more word after a single blank. */
  lemma FieldsSnoc(a: string, w: string)
    requires Word(w)
    ensures Fields(a + " " + w) == Fields(a) + [w]
  {
    FieldsWord(a + " ", w);
    FieldsSpace(a);
  }

  /** One more word after a line break. */
  lemma FieldsNextLine(a: string, w: string)
    requires Word(w)
    ensures Fields(a + "\n" + w) == Fields(a) + [w]
  {
    assert IsSpace('\n');
    assert (a + "\n")[..|a + "\n"| - 1] == a;
    FieldsWord(a + "\n", w);
  }

  /** One word a line: the lines are the fields. */
  lemma {:induction false} FieldsOfLines(words: seq<string>)
    requires words != [] && forall w :: w in words ==> Word(w)
    ensures Fields(Join(words, '\n')) == words
  {
    hide Fields, Word;
    var n := |words| - 1;
    assert words == words[..n] + [words[n]] && words[n] in words;
    if n == 0 {
      FieldsOne(words[0]);
    } else {
      FieldsOfLines(words[..n]);
      JoinSnoc(words[..n], words[n], '\n');
      FieldsNextLine(Join(words[..n], '\n'), words[n]);
    }
  }

  /** Words joined by blanks are read back as those words. */
  lemma {:induction false} FieldsOfJoin(words: seq<string>)
    requires words != [] && forall w :: w in words ==> Word(w)
    ensures Fields(Join(words, ' ')) == words
  {
    hide Fields, Word;
    var n := |words| - 1;
    assert words == words[..n] + [words[n]] && words[n] in words;
    if n == 0 {
      FieldsOne(words[0]);
    } else {
      FieldsOfJoin(words[..n]);
      JoinSnoc(words[..n], words[n], ' ');
      FieldsSnoc(Join(words[..n], ' '), words[n]);
    }
  }

  // ---------- trimming ----------

  function TrimLeft(s: string, cut: set<char>): string {
    if s != "" && s[0] in cut then TrimLeft(s[1..], cut) else s
  }

  function TrimRight(s: string, cut: set<char>): string {
    if s != "" && s[|s| - 1] in cut then TrimRight(s[..|s| - 1], cut) else s
  }

  /** strings.Trim: cutset characters removed from both ends. */
  function Trim(s: string, cut: set<char>): string {
    TrimRight(TrimLeft(s, cut), cut)
  }

  function TrimSpace(s: string): string { Trim(s, SPACES) }

  predicate Trimmed(s: string, cut: set<char>) {
    s == "" || (s[0] !in cut && s[|s| - 1] !in cut)
  }

  lemma TrimKeeps(s: string, cut: set<char>)
    requires Trimmed(s, cut)
    ensures Trim(s, cut) == s
  {
  }

  lemma TrimKeepsJoined(s: string, t: string, cut: set<char>)
    requires Trimmed(s, cut) && Trimmed(t, cut) && t != ""
    ensures Trim(s + t, cut) == s + t
  {
    TrimKeeps(s + t, cut);
  }

  lemma {:induction false} TrimLeftEnds(s: string, cut: set<char>)
    ensures var r := TrimLeft(s, cut); r == "" || r[0] !in cut
  {
    if s != "" && s[0] in cut {
      TrimLeftEnds(s[1..], cut);
    }
  }

  lemma {:induction false} TrimRightEnds(s: string, cut: set<char>)
    ensures var r := TrimRight(s, cut); r <= s && (r == "" || r[|r| - 1] !in cut)
  {
    if s != "" && s[|s| - 1] in cut {
      TrimRightEnds(s[..|s| - 1], cut);
    }
  }

  lemma TrimIsTrimmed(s: string, cut: set<char>)
    ensures Trimmed(Trim(s, cut), cut)
    ensures Trim(Trim(s, cut), cut) == Trim(s, cut)
  {
    TrimLeftEnds(s, cut);
    TrimRightEnds(TrimLeft(s, cut), cut);
    TrimKeeps(Trim(s, cut), cut);
  }

  lemma {:induction false} TrimRightBlank(s: string)
    requires TrimRight(s, SPACES) == ""
    ensures forall i :: 0 <= i < |s| ==> IsSpace(s[i])
  {
    if s != "" {
      TrimRightBlank(s[..|s| - 1]);
    }
  }

  lemma {:induction false} TrimLeftBlank(s: string)
    requires TrimLeft(s, SPACES) == ""
    ensures forall i :: 0 <= i < |s| ==> IsSpace(s[i])
  {
    if s != "" {
      TrimLeftBlank(s[1..]);
    }
  }

  lemma {:induction false} SpacesHaveNoFields(s: string)
    requires forall i :: 0 <= i < |s| ==> IsSpace(s[i])
    ensures Fields(s) == []
  {
    if s != "" {
      SpacesHaveNoFields(s[..|s| - 1]);
    }
  }

  /** A text that trims to nothing is all white space. */
  lemma BlankOnlySpaces(s: string)
    requires TrimSpace(s) == ""
    ensures forall i :: 0 <= i < |s| ==> IsSpace(s[i])
  {
    var t := TrimLeft(s, SPACES);
    TrimLeftEnds(s, SPACES);
    TrimRightBlank(t);
    TrimLeftBlank(s);
  }

  /** A line that trims to nothing has no fields. */
  lemma BlankHasNoFields(s: string)
    requires TrimSpace(s) == ""
    ensures Fields(s) == []
  {
    BlankOnlySpaces(s);
    SpacesHaveNoFields(s);
  }

  /** `w` followed by a blank can only be a prefix of a line whose first word is `w`. */
  lemma PrefixWord(w: string, rest: string, v: string, more: string)
    requires Free(w, ' ') && Free(v, ' ')
    ensures w + " " + rest <= v + " " + more <==> w == v && rest <= more
  {
    var a, b := w + " " + rest, v + " " + more;
    assert a[|w|] == ' ' && b[|v|] == ' ';
    assert |w| < |v| ==> b[|w|] == v[|w|];
    assert |v| < |w| ==> a[|v|] == w[|v|];
    if w == v {
      if rest <= more {
        assert more == rest + more[|rest|..];
        assert b == a + more[|rest|..];
      }
      if a <= b {
        forall i | 0 <= i < |rest| ensures rest[i] == more[i] {
          assert a[|w| + 1 + i] == b[|w| + 1 + i];
        }
      }
    } else if a <= b && |w| == |v| {
      forall i | 0 <= i < |w| ensures w[i] == v[i] {
        assert a[i] == b[i];
      }
    }
  }
}
