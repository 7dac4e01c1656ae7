/** The two regular expressions of the form validators, `^[a-z]\d\d?$` with the
    `i` flag for cell ids and `^[\w\- ]+$` for spreadsheet names, modelled as
    anchored sequences of quantified character classes, and each proved equal to a
    direct description of the strings it accepts. */
module Patterns {

  /** A character class: a union of inclusive character ranges. */
  datatype CharClass = Ranges(rs: seq<(char, char)>)

  /** The quantifiers the two patterns use: none, `?` and `+`. */
  datatype Quant = One | Opt | Plus

  datatype Atom = Atom(cls: CharClass, q: Quant)

  predicate InRanges(rs: seq<(char, char)>, c: char)
    decreases |rs|
  {
    |rs| > 0 && ((rs[0].0 <= c <= rs[0].1) || InRanges(rs[1..], c))
  }

  predicate IsLower(c: char) { 'a' <= c <= 'z' }
  predicate IsUpper(c: char) { 'A' <= c <= 'Z' }
  predicate IsAsciiLetter(c: char) { IsLower(c) || IsUpper(c) }
  predicate IsDigit(c: char) { '0' <= c <= '9' }
  /** `\w` without the `u` flag. */
  predicate IsWordChar(c: char) { IsAsciiLetter(c) || IsDigit(c) || c == '_' }

  function ToUpper(c: char): (u: char)
    ensures IsLower(c) ==> IsUpper(u) && u as int + 32 == c as int
    ensures !IsLower(c) ==> u == c
  {
    if IsLower(c) then (c as int - 32) as char else c
  }

  function ToLower(c: char): (l: char)
    ensures IsUpper(c) ==> IsLower(l) && l as int == c as int + 32
    ensures !IsUpper(c) ==> l == c
  {
    if IsUpper(c) then (c as int + 32) as char else c
  }

  /** Class membership; under the `i` flag a character also matches when its other
      case is in the class (case folding of ASCII letters only). */
  predicate InClass(cls: CharClass, c: char, ignoreCase: bool)
  {
    InRanges(cls.rs, c) || (ignoreCase && (InRanges(cls.rs, ToUpper(c)) || InRanges(cls.rs, ToLower(c))))
  }

  /** Whether the whole of `s` matches the atoms `ps` (the pattern is anchored by
      `^` and `$` at both ends). */
  predicate Matches(ps: seq<Atom>, s: string, ignoreCase: bool)
    decreases |s|, |ps|
  {
    if ps == [] then s == []
    else
      match ps[0].q
      case One =>
        |s| > 0 && InClass(ps[0].cls, s[0], ignoreCase) && Matches(ps[1..], s[1..], ignoreCase)
      case Opt =>
        Matches(ps[1..], s, ignoreCase)
        || (|s| > 0 && InClass(ps[0].cls, s[0], ignoreCase) && Matches(ps[1..], s[1..], ignoreCase))
      case Plus =>
        |s| > 0 && InClass(ps[0].cls, s[0], ignoreCase)
        && (Matches(ps[1..], s[1..], ignoreCase) || Matches(ps, s[1..], ignoreCase))
  }

  const Letters := Ranges([('a', 'z')])
  const Digits := Ranges([('0', '9')])
  /** `[\w\- ]` */
  const NameChars := Ranges([('A', 'Z'), ('a', 'z'), ('0', '9'), ('_', '_'), ('-', '-'), (' ', ' ')])

  /** `^[a-z]\d\d?$`, used with the `i` flag. */
  const CellIdPattern := [Atom(Letters, One), Atom(Digits, One), Atom(Digits, Opt)]
  /** `^[\w\- ]+$` */
  const NamePattern := [Atom(NameChars, Plus)]

  /** A cell id as the form accepts it: one ASCII letter of either case, then one
      or two decimal digits. */
  predicate CellIdShape(s: string)
  {
    (|s| == 2 || |s| == 3) && IsAsciiLetter(s[0]) && forall i :: 1 <= i < |s| ==> IsDigit(s[i])
  }

  /** A spreadsheet name as the form accepts it: non-empty, only word characters,
      hyphens and spaces. */
  predicate NameShape(s: string)
  {
    |s| > 0 && forall i :: 0 <= i < |s| ==> IsWordChar(s[i]) || s[i] == '-' || s[i] == ' '
  }

  lemma LetterClass(c: char)
    ensures InClass(Letters, c, true) <==> IsAsciiLetter(c)
  {
    assert Letters.rs[1..] == [];
  }

  lemma DigitClass(c: char, ignoreCase: bool)
    ensures InClass(Digits, c, ignoreCase) <==> IsDigit(c)
  {
    assert Digits.rs[1..] == [];
  }

  lemma NameClass(c: char)
    ensures InClass(NameChars, c, false) <==> IsWordChar(c) || c == '-' || c == ' '
  {
    var rs := NameChars.rs;
    assert rs[1..][1..][1..][1..][1..][1..] == [];
  }

  /** A single `+` atom matches exactly the non-empty strings of its class. */
  lemma {:induction false} PlusMatches(cls: CharClass, s: string, ignoreCase: bool)
    ensures Matches([Atom(cls, Plus)], s, ignoreCase)
        <==> |s| > 0 && forall i :: 0 <= i < |s| ==> InClass(cls, s[i], ignoreCase)
    decreases |s|
  {
    var ps := [Atom(cls, Plus)];
    assert ps[1..] == [] && ps[0].q == Plus && ps[0].cls == cls;
    if |s| > 0 {
      PlusMatches(cls, s[1..], ignoreCase);
      if forall i :: 0 <= i < |s| ==> InClass(cls, s[i], ignoreCase) {
        if |s| > 1 {
          assert forall i :: 0 <= i < |s[1..]| ==> InClass(cls, s[1..][i], ignoreCase) by {
            forall i | 0 <= i < |s[1..]| ensures InClass(cls, s[1..][i], ignoreCase) {
              assert s[1..][i] == s[i + 1];
            }
          }
        } else {
          assert s[1..] == [];
        }
      }
      if Matches(ps, s, ignoreCase) && |s| > 1 {
        assert !Matches(ps[1..], s[1..], ignoreCase);
        forall i | 0 <= i < |s| ensures InClass(cls, s[i], ignoreCase) {
          if i > 0 { assert s[1..][i - 1] == s[i]; }
        }
      }
    }
  }

  /** The cell-id pattern accepts exactly the cell-id shape. */
  lemma CellIdPatternMatches(s: string)
    ensures Matches(CellIdPattern, s, true) <==> CellIdShape(s)
  {
    var ps := CellIdPattern;
    var p1, p2 := ps[1..], ps[1..][1..];
    assert p2[1..] == [];
    forall u: string ensures Matches(p2, u, true) <==> u == [] || (|u| == 1 && IsDigit(u[0])) {
      if |u| > 0 { DigitClass(u[0], true); }
    }
    forall t: string ensures Matches(p1, t, true) <==> |t| > 0 && IsDigit(t[0]) && Matches(p2, t[1..], true) {
      if |t| > 0 { DigitClass(t[0], true); }
    }
    if |s| > 0 {
      LetterClass(s[0]);
      assert Matches(ps, s, true) <==> IsAsciiLetter(s[0]) && Matches(p1, s[1..], true);
      if |s| > 1 {
        assert s[1..][0] == s[1] && s[1..][1..] == s[2..];
        if |s| > 2 {
          assert s[2..][0] == s[2];
        }
      }
    }
  }

  /** The name pattern accepts exactly the name shape. */
  lemma NamePatternMatches(s: string)
    ensures Matches(NamePattern, s, false) <==> NameShape(s)
  {
    PlusMatches(NameChars, s, false);
    forall i | 0 <= i < |s| ensures InClass(NameChars, s[i], false) <==> IsWordChar(s[i]) || s[i] == '-' || s[i] == ' ' {
      NameClass(s[i]);
    }
  }
}
