/** Letter case on ASCII text, as Python's `str.lower()` and `str.title()`
    apply it: only cased letters change, and `title` decides the case of each
    letter by whether the character before it is a cased letter. */
module Text {

  predicate IsUpper(c: char) { 'A' <= c <= 'Z' }

  predicate IsLower(c: char) { 'a' <= c <= 'z' }

  /** A cased character: one that has an upper- and a lower-case form. */
  predicate IsCased(c: char) { IsUpper(c) || IsLower(c) }

  function ToLower(c: char): char {
    if IsUpper(c) then (c as int + 32) as char else c
  }

  function ToUpper(c: char): char {
    if IsLower(c) then (c as int - 32) as char else c
  }

  /** `s.lower()` */
  function Lower(s: string): (t: string)
    ensures |t| == |s|
    ensures forall i :: 0 <= i < |s| ==> !IsUpper(t[i])
    ensures forall i :: 0 <= i < |s| ==> ToUpper(t[i]) == ToUpper(s[i])
    ensures forall i :: 0 <= i < |s| && !IsCased(s[i]) ==> t[i] == s[i]
  {
    seq(|s|, i requires 0 <= i < |s| => ToLower(s[i]))
  }

  /** `s.title()`: a cased letter becomes upper case when it starts a word (the
      character before it is not cased) and lower case otherwise; every other
      character is kept. */
  function Title(s: string): (t: string)
    ensures |t| == |s|
    ensures forall i :: 0 <= i < |s| ==> ToLower(t[i]) == ToLower(s[i])
    ensures forall i :: 0 <= i < |s| && IsCased(s[i]) ==>
      (IsUpper(t[i]) <==> i == 0 || !IsCased(s[i - 1]))
    ensures forall i :: 0 <= i < |s| && !IsCased(s[i]) ==> t[i] == s[i]
  {
    var t := seq(|s|, i requires 0 <= i < |s| =>
      if i > 0 && IsCased(s[i - 1]) then ToLower(s[i]) else ToUpper(s[i]));
    TitleCases(s, t);
    t
  }

  /** Case by case, what title-casing does to each character. */
  lemma TitleCases(s: string, t: string)
    requires |t| == |s|
    requires forall i {:trigger t[i]} :: 0 <= i < |s| ==>
      t[i] == if i > 0 && IsCased(s[i - 1]) then ToLower(s[i]) else ToUpper(s[i])
    ensures forall i :: 0 <= i < |s| ==> ToLower(t[i]) == ToLower(s[i])
    ensures forall i :: 0 <= i < |s| && IsCased(s[i]) ==>
      (IsUpper(t[i]) <==> i == 0 || !IsCased(s[i - 1]))
    ensures forall i :: 0 <= i < |s| && !IsCased(s[i]) ==> t[i] == s[i]
  {
    forall i | 0 <= i < |s|
      ensures ToLower(t[i]) == ToLower(s[i])
      ensures IsCased(s[i]) ==> (IsUpper(t[i]) <==> i == 0 || !IsCased(s[i - 1]))
      ensures !IsCased(s[i]) ==> t[i] == s[i]
    {
      CaseFacts(s[i]);
      if i > 0 && IsCased(s[i - 1]) {
        assert t[i] == ToLower(s[i]);
      } else {
        assert t[i] == ToUpper(s[i]);
      }
    }
  }

  /** `s` and `t` are the same text up to letter case. */
  predicate SameIgnoringCase(s: string, t: string) {
    Lower(s) == Lower(t)
  }

  lemma CaseFacts(c: char)
    ensures IsCased(ToLower(c)) == IsCased(c) && IsCased(ToUpper(c)) == IsCased(c)
    ensures ToLower(ToUpper(c)) == ToLower(c) && ToUpper(ToLower(c)) == ToUpper(c)
    ensures ToLower(ToLower(c)) == ToLower(c) && ToUpper(ToUpper(c)) == ToUpper(c)
    ensures IsCased(c) ==> IsUpper(ToUpper(c)) && !IsUpper(ToLower(c))
  {
  }

  /** Title case is a normal form: applying it twice changes nothing. */
  lemma TitleIdempotent(s: string)
    ensures Title(Title(s)) == Title(s)
  {
    var t := Title(s);
    forall i | 0 <= i < |s| ensures Title(t)[i] == t[i] {
      CaseFacts(s[i]);
      if i > 0 {
        CaseFacts(s[i - 1]);
      }
    }
  }

  /** Two texts have the same title case exactly when they differ only in
      letter case. */
  lemma TitleIgnoresCase(s: string, t: string)
    ensures Title(s) == Title(t) <==> SameIgnoringCase(s, t)
  {
    if SameIgnoringCase(s, t) {
      assert |s| == |Lower(s)| == |Lower(t)| == |t|;
      forall i | 0 <= i < |s| ensures Title(s)[i] == Title(t)[i] {
        assert Lower(s)[i] == Lower(t)[i];
        CaseFacts(s[i]);
        CaseFacts(t[i]);
        if i > 0 {
          assert Lower(s)[i - 1] == Lower(t)[i - 1];
          CaseFacts(s[i - 1]);
          CaseFacts(t[i - 1]);
        }
      }
    }
    if Title(s) == Title(t) {
      LowerOfTitle(s);
      LowerOfTitle(t);
    }
  }

  /** Title case keeps the text up to letter case. */
  lemma LowerOfTitle(s: string)
    ensures Lower(Title(s)) == Lower(s)
  {
    forall i | 0 <= i < |s| ensures Lower(Title(s))[i] == Lower(s)[i] {
      CaseFacts(s[i]);
    }
  }
}
