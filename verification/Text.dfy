/** Splitting, joining, and decimal numbers, as the Go standard library does them. */
module Text {
  import opened Wrappers

  /** strings.Split with a one-character separator: always at least one part. */
  function Split(s: string, sep: char): (parts: seq<string>)
    ensures |parts| > 0
  {
    if s == [] then [""]
    else
      var rest := Split(s[1..], sep);
      if s[0] == sep then [""] + rest else [[s[0]] + rest[0]] + rest[1..]
  }

  function Join(parts: seq<string>, sep: char): string
    requires |parts| > 0
  {
    if |parts| == 1 then parts[0] else parts[0] + [sep] + Join(parts[1..], sep)
  }

  lemma {:induction false} SplitConcat(a: string, b: string, sep: char)
    ensures Split(a + [sep] + b, sep) == Split(a, sep) + Split(b, sep)
  {
    var s := a + [sep] + b;
    if a == [] {
      assert s[1..] == b;
    } else {
      SplitConcat(a[1..], b, sep);
      assert s[1..] == a[1..] + [sep] + b && s[0] == a[0];
      ToFirst(a[0], Split(a[1..], sep), Split(b, sep));
    }
  }

  lemma ToFirst(c: char, parts: seq<string>, more: seq<string>)
    requires |parts| > 0
    ensures [[c] + (parts + more)[0]] + (parts + more)[1..] == ([[c] + parts[0]] + parts[1..]) + more
    ensures [""] + (parts + more) == ([""] + parts) + more
  {
  }

  lemma {:induction false} SplitWhole(s: string, sep: char)
    requires sep !in s
    ensures Split(s, sep) == [s]
  {
    if s != [] {
      SplitWhole(s[1..], sep);
      assert s == [s[0]] + s[1..];
    }
  }

  /** Joining undoes splitting, and no part holds the separator. */
  lemma {:induction false} JoinUndoesSplit(s: string, sep: char)
    ensures Join(Split(s, sep), sep) == s
    ensures forall part :: part in Split(s, sep) ==> sep !in part
  {
    if s != [] {
      JoinUndoesSplit(s[1..], sep);
      var rest := Split(s[1..], sep);
      var parts := Split(s, sep);
      if s[0] == sep {
        assert parts[1..] == rest;
      } else {
        assert parts[1..] == rest[1..];
        assert rest[0] in rest;
      }
      assert s == [s[0]] + s[1..];
    }
  }

  lemma JoinThree(a: string, b: string, c: string, sep: char)
    ensures Join([a, b, c], sep) == a + [sep] + b + [sep] + c
  {
    assert [a, b, c][1..] == [b, c] && [b, c][1..] == [c];
    assert Join([b, c], sep) == b + [sep] + c;
    assert Join([a, b, c], sep) == a + [sep] + (b + [sep] + c);
  }

  lemma {:induction false} JoinConcat(a: seq<string>, b: seq<string>, sep: char)
    requires |a| > 0 && |b| > 0
    ensures Join(a + b, sep) == Join(a, sep) + [sep] + Join(b, sep)
  {
    if |a| == 1 {
      assert (a + b)[1..] == b;
    } else {
      JoinConcat(a[1..], b, sep);
      assert (a + b)[1..] == a[1..] + b;
    }
  }

  lemma SplitThree(a: string, b: string, c: string, sep: char)
    requires sep !in a && sep !in b && sep !in c
    ensures Split(a + [sep] + b + [sep] + c, sep) == [a, b, c]
  {
    SplitWhole(a, sep);
    SplitWhole(b, sep);
    SplitWhole(c, sep);
    SplitConcat(a, b, sep);
    SplitConcat(a + [sep] + b, c, sep);
  }

  /** Splitting the joined text is splitting every part. */
  lemma {:induction false} SplitJoinAll(parts: seq<string>, sep: char)
    requires |parts| > 0
    ensures Split(Join(parts, sep), sep) == SplitAll(parts, sep)
  {
    if |parts| > 1 {
      SplitJoinAll(parts[1..], sep);
      SplitConcat(parts[0], Join(parts[1..], sep), sep);
    } else {
      assert SplitAll(parts[1..], sep) == [];
    }
  }

  function SplitAll(lines: seq<string>, sep: char): seq<string> {
    if lines == [] then [] else Split(lines[0], sep) + SplitAll(lines[1..], sep)
  }

  /** A text is cut at its first separator in one way only. */
  lemma CutUnique(a: string, b: string, c: string, d: string, sep: char)
    requires sep !in a && sep !in c && a + [sep] + b == c + [sep] + d
    ensures a == c && b == d
  {
    var s, t := a + [sep] + b, c + [sep] + d;
    assert s[|a|] == sep && t[|c|] == sep;
    assert forall i :: 0 <= i < |a| ==> s[i] == a[i] != sep;
    assert forall i :: 0 <= i < |c| ==> t[i] == c[i] != sep;
    assert |a| == |c|;
    assert a == s[..|a|] && c == t[..|c|] && b == s[|a| + 1..] && d == t[|c| + 1..];
  }

  /** strings.CutPrefix */
  function CutPrefix(s: string, prefix: string): Option<string> {
    if prefix <= s then Some(s[|prefix|..]) else None
  }

  /** unicode.IsSpace */
  predicate IsSpace(c: char) {
    || '\t' <= c <= '\r' || c == ' ' || c == '\U{85}' || c == '\U{A0}' || c == '\U{1680}'
    || '\U{2000}' <= c <= '\U{200A}' || c == '\U{2028}' || c == '\U{2029}' || c == '\U{202F}'
    || c == '\U{205F}' || c == '\U{3000}'
  }

  /** strings.TrimSpace */
  function TrimSpace(s: string): string {
    if s == [] then s
    else if IsSpace(s[0]) then TrimSpace(s[1..])
    else if IsSpace(s[|s| - 1]) then TrimSpace(s[..|s| - 1])
    else s
  }

  predicate AllBlank(s: string) {
    forall i :: 0 <= i < |s| ==> IsSpace(s[i])
  }

  /** No blank at either end. */
  predicate Tight(s: string) {
    s != [] ==> !IsSpace(s[0]) && !IsSpace(s[|s| - 1])
  }

  /** Surrounding blanks go, whatever and however many they are. */
  lemma {:induction false} TrimSpaceIs(left: string, core: string, right: string)
    requires AllBlank(left) && Tight(core) && AllBlank(right)
    ensures TrimSpace(left + core + right) == core
    decreases |left| + |right|
  {
    var s := left + core + right;
    if left != [] {
      assert s[1..] == left[1..] + core + right;
      TrimSpaceIs(left[1..], core, right);
    } else if right != [] {
      if core == [] {
        assert s == right && s[1..] == left + core + right[1..];
        TrimSpaceIs(left, core, right[1..]);
      } else {
        assert s[0] == core[0] && s[|s| - 1] == right[|right| - 1];
        assert s[..|s| - 1] == left + core + right[..|right| - 1];
        TrimSpaceIs(left, core, right[..|right| - 1]);
      }
    } else {
      assert s == core;
    }
  }

  /** Every text is its trimmed core between blanks. */
  lemma {:induction false} TrimSpaceCore(s: string) returns (left: string, right: string)
    ensures s == left + TrimSpace(s) + right && AllBlank(left) && Tight(TrimSpace(s)) && AllBlank(right)
  {
    hide IsSpace;
    left, right := "", "";
    if s != [] {
      if IsSpace(s[0]) {
        left, right := TrimSpaceCore(s[1..]);
        assert s == [s[0]] + (left + TrimSpace(s) + right);
        assert [s[0]] + (left + TrimSpace(s) + right) == ([s[0]] + left) + TrimSpace(s) + right;
        left := [s[0]] + left;
      } else if IsSpace(s[|s| - 1]) {
        var last := [s[|s| - 1]];
        left, right := TrimSpaceCore(s[..|s| - 1]);
        assert s == (left + TrimSpace(s) + right) + last;
        assert (left + TrimSpace(s) + right) + last == left + TrimSpace(s) + (right + last);
        right := right + last;
      }
    }
  }

  // ---------------------------------------------------------------- decimals

  predicate IsDigit(c: char) {
    '0' <= c <= '9'
  }

  /** %d of a non-negative number */
  function Decimal(n: nat): (s: string)
    ensures |s| > 0 && forall i :: 0 <= i < |s| ==> IsDigit(s[i])
  {
    if n < 10 then ['0' + n as char] else Decimal(n / 10) + ['0' + (n % 10) as char]
  }

  lemma DecimalNext(n: nat, d: nat)
    requires n > 0 && d < 10
    ensures Decimal(10 * n + d) == Decimal(n) + ['0' + d as char]
  {
  }

  /** The number a digit string stands for; no digit string, no number. */
  function Digits(s: string): Option<nat> {
    if s == [] then Some(0)
    else
      var c := s[|s| - 1];
      match Digits(s[..|s| - 1])
      case None => None
      case Some(n) => if IsDigit(c) then Some(10 * n + (c - '0') as nat) else None
  }

  /** strconv.ParseUint(s, 10, bits) for the largest value of that width */
  function ParseUint(s: string, max: nat): Option<nat> {
    if s == [] then None
    else
      match Digits(s)
      case None => None
      case Some(n) => if n <= max then Some(n) else None
  }

  lemma {:induction false} DigitsDecimal(n: nat)
    ensures Digits(Decimal(n)) == Some(n)
  {
    var s := Decimal(n);
    if n < 10 {
      assert s[..|s| - 1] == [];
    } else {
      assert s[..|s| - 1] == Decimal(n / 10);
      DigitsDecimal(n / 10);
    }
  }

  lemma ParseDecimal(n: nat, max: nat)
    ensures ParseUint(Decimal(n), max) == if n <= max then Some(n) else None
  {
    DigitsDecimal(n);
  }

  /** Only a non-empty run of digits is a number. */
  lemma {:induction false} DigitsOnly(s: string)
    requires Digits(s).Some?
    ensures forall i :: 0 <= i < |s| ==> IsDigit(s[i])
  {
    if s != [] {
      DigitsOnly(s[..|s| - 1]);
    }
  }
}
