/** What stripping and changing case give, told without the functions that compute it. */
module TextLaws {
  import opened Text

  /** Python's ASCII white space. */
  const WHITE: set<char> := {' ', 9 as char, 10 as char, 11 as char, 12 as char, 13 as char, 28 as char, 29 as char, 30 as char, 31 as char}

  predicate White(s: string) {
    forall i :: 0 <= i < |s| ==> s[i] in WHITE
  }

  predicate Bare(s: string) {
    s == "" || (s[0] !in WHITE && s[|s| - 1] !in WHITE)
  }

  lemma {:induction false} LeftPart(s: string) returns (left: string)
    ensures White(left) && s == left + StripLeft(s)
  {
    left := "";
    if s != "" && IsSpace(s[0]) {
      var rest := LeftPart(s[1..]);
      left := [s[0]] + rest;
    }
  }

  lemma {:induction false} RightPart(s: string) returns (right: string)
    ensures White(right) && s == StripRight(s) + right
  {
    right := "";
    if s != "" && IsSpace(s[|s| - 1]) {
      var rest := RightPart(s[..|s| - 1]);
      right := rest + [s[|s| - 1]];
    }
  }

  lemma {:induction false} LeftGone(left: string, s: string)
    requires White(left) && (s == "" || s[0] !in WHITE)
    ensures StripLeft(left + s) == s
  {
    if left == "" {
      assert left + s == s;
    } else {
      assert (left + s)[1..] == left[1..] + s;
      LeftGone(left[1..], s);
    }
  }

  lemma {:induction false} RightGone(s: string, right: string)
    requires White(right) && (s == "" || s[|s| - 1] !in WHITE)
    ensures StripRight(s + right) == s
  {
    if right == "" {
      assert s + right == s;
    } else {
      assert (s + right)[..|s + right| - 1] == s + right[..|right| - 1];
      RightGone(s, right[..|right| - 1]);
    }
  }

  /** Stripping takes white space off both ends, and leaves none there. */
  lemma StripTakesOff(s: string) returns (left: string, right: string)
    ensures White(left) && White(right) && s == left + Strip(s) + right && Bare(Strip(s))
  {
    left := LeftPart(s);
    right := RightPart(StripLeft(s));
    BareEnds(s);
    Regroup(left, Strip(s), right);
  }

  lemma BareEnds(s: string)
    ensures Bare(Strip(s))
  {
    StripStrips(s);
  }

  lemma Regroup(a: string, b: string, c: string)
    ensures a + (b + c) == a + b + c
  {
  }

  /** A bare text is stripped as it stands. */
  lemma BareStays(s: string)
    requires Bare(s)
    ensures Strip(s) == s && (s != "" ==> !White(s))
  {
    StripLeaves("", s, "");
    assert "" + s + "" == s;
  }

  /** And whatever stands bare between white space is what is left. */
  lemma StripLeaves(left: string, s: string, right: string)
    requires White(left) && White(right) && Bare(s)
    ensures Strip(left + s + right) == s
  {
    if s == "" {
      var all := left + right;
      assert left + s + right == all;
      LeftGone(all, "");
      assert all + "" == all;
    } else {
      assert left + s + right == left + (s + right);
      LeftGone(left, s + right);
      RightGone(s, right);
    }
  }

  /** A text strips to nothing exactly when it is all white space. */
  lemma BlankStrips(s: string)
    ensures Strip(s) == "" <==> White(s)
  {
    var left, right := StripTakesOff(s);
    if White(s) {
      StripLeaves(s, "", "");
      assert s + "" + "" == s;
    }
    if Strip(s) == "" {
      assert left + "" + right == left + right;
    }
  }

  /** The same letter but for case, or the same character. */
  predicate SameLetter(c: char, d: char) {
    || c == d
    || ('a' <= c <= 'z' && c as int - d as int == 32)
    || ('a' <= d <= 'z' && d as int - c as int == 32)
  }

  predicate SameLetters(s: string, t: string) {
    |s| == |t| && forall i :: 0 <= i < |s| ==> SameLetter(s[i], t[i])
  }

  predicate NoCapitals(s: string) {
    forall i :: 0 <= i < |s| ==> !('A' <= s[i] <= 'Z')
  }

  predicate NoSmalls(s: string) {
    forall i :: 0 <= i < |s| ==> !('a' <= s[i] <= 'z')
  }

  lemma LowerLetter(c: char)
    ensures SameLetter(c, LowerChar(c)) && !('A' <= LowerChar(c) <= 'Z')
    ensures forall d :: SameLetter(c, d) && !('A' <= d <= 'Z') ==> d == LowerChar(c)
  {
  }

  lemma UpperLetter(c: char)
    ensures SameLetter(c, UpperChar(c)) && !('a' <= UpperChar(c) <= 'z')
    ensures forall d :: SameLetter(c, d) && !('a' <= d <= 'z') ==> d == UpperChar(c)
  {
  }

  /** Lower case is the one text of the same letters without capitals. */
  lemma LowerIs(s: string, t: string)
    ensures Lower(s) == t <==> SameLetters(s, t) && NoCapitals(t)
  {
    forall i | 0 <= i < |s|
      ensures SameLetter(s[i], Lower(s)[i]) && !('A' <= Lower(s)[i] <= 'Z')
    {
      LowerLetter(s[i]);
    }
    if SameLetters(s, t) && NoCapitals(t) {
      forall i | 0 <= i < |s|
        ensures Lower(s)[i] == t[i]
      {
        LowerLetter(s[i]);
      }
    }
  }

  /** Upper case is the one text of the same letters without small ones. */
  lemma UpperIs(s: string, t: string)
    ensures Upper(s) == t <==> SameLetters(s, t) && NoSmalls(t)
  {
    forall i | 0 <= i < |s|
      ensures SameLetter(s[i], Upper(s)[i]) && !('a' <= Upper(s)[i] <= 'z')
    {
      UpperLetter(s[i]);
    }
    if SameLetters(s, t) && NoSmalls(t) {
      forall i | 0 <= i < |s|
        ensures Upper(s)[i] == t[i]
      {
        UpperLetter(s[i]);
      }
    }
  }

  /** Texts are alike in lower case exactly when they have the same letters. */
  lemma LowerAlike(s: string, t: string)
    ensures Lower(s) == Lower(t) <==> SameLetters(s, t)
  {
    if SameLetters(s, t) {
      forall i | 0 <= i < |s|
        ensures Lower(s)[i] == Lower(t)[i]
      {
        assert SameLetter(s[i], t[i]);
      }
    } else if |s| == |t| {
      var i :| 0 <= i < |s| && !SameLetter(s[i], t[i]);
      assert Lower(s)[i] != Lower(t)[i];
    }
  }
}
