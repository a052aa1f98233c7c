/** The string operations the professional model relies on, with Python's
    meaning: `str.isspace`, `str.strip()`, `str.split()` with no separator,
    `' '.join(...)` and `str.title()`. */
module Text {

  /** Python's whitespace: the characters `str.isspace()` accepts, which are
      also what `split()` and `strip()` without arguments remove. */
  predicate IsSpace(c: char)
  {
    || ('\t' <= c <= '\r')
    || ('\U{1C}' <= c <= '\U{1F}')
    || c == ' ' || c == '\U{85}' || c == '\U{A0}' || c == '\U{1680}'
    || ('\U{2000}' <= c <= '\U{200A}')
    || c == '\U{2028}' || c == '\U{2029}' || c == '\U{202F}' || c == '\U{205F}'
    || c == '\U{3000}'
  }

  /** A word in the sense of `str.split()`: non-empty, no whitespace. */
  predicate IsWord(w: string)
  {
    |w| > 0 && forall i :: 0 <= i < |w| ==> !IsSpace(w[i])
  }

  /** The code points of a string, the order a database collation on code
      points and Python's string comparison both use. */
  function Codes(s: string): (r: seq<int>)
    ensures |r| == |s|
    ensures forall i :: 0 <= i < |s| ==> r[i] == s[i] as int
  {
    seq(|s|, i requires 0 <= i < |s| => s[i] as int)
  }

  // ---------------------------------------------------------------- strip

  /** Number of whitespace characters at the start of `s`. */
  function LeadingSpaces(s: string): (n: nat)
    ensures n <= |s|
    ensures forall i :: 0 <= i < n ==> IsSpace(s[i])
    ensures n < |s| ==> !IsSpace(s[n])
  {
    if s == [] || !IsSpace(s[0]) then 0 else 1 + LeadingSpaces(s[1..])
  }

  /** Number of whitespace characters at the end of `s`. */
  function TrailingSpaces(s: string): (n: nat)
    ensures n <= |s|
    ensures forall i :: |s| - n <= i < |s| ==> IsSpace(s[i])
    ensures n < |s| ==> !IsSpace(s[|s| - 1 - n])
  {
    if s == [] || !IsSpace(s[|s| - 1]) then 0 else 1 + TrailingSpaces(s[..|s| - 1])
  }

  /** `str.strip()`: the contiguous middle of `s` that remains once the
      leading and trailing whitespace is gone; nothing inside is touched. */
  function Strip(s: string): (r: string)
    ensures |r| <= |s|
    ensures r == [] || (!IsSpace(r[0]) && !IsSpace(r[|r| - 1]))
    ensures LeadingSpaces(s) + |r| <= |s|
    ensures forall i :: 0 <= i < |r| ==> r[i] == s[LeadingSpaces(s) + i]
    ensures forall i :: LeadingSpaces(s) + |r| <= i < |s| ==> IsSpace(s[i])
  {
    var t := s[LeadingSpaces(s)..];
    t[..|t| - TrailingSpaces(t)]
  }

  /** A string with no whitespace at either end is its own strip. */
  lemma StripOfUnpadded(s: string)
    requires s == [] || (!IsSpace(s[0]) && !IsSpace(s[|s| - 1]))
    ensures Strip(s) == s
  {
    assert LeadingSpaces(s) == 0;
    assert s[LeadingSpaces(s)..] == s;
    assert TrailingSpaces(s) == 0;
  }

  lemma StripIdempotent(s: string)
    ensures Strip(Strip(s)) == Strip(s)
  {
    StripOfUnpadded(Strip(s));
  }

  // ------------------------------------------------------- split and join

  /** Length of the longest whitespace-free prefix of `s`. */
  function WordLen(s: string): (n: nat)
    ensures n <= |s|
    ensures forall i :: 0 <= i < n ==> !IsSpace(s[i])
    ensures n < |s| ==> IsSpace(s[n])
  {
    if s == [] || IsSpace(s[0]) then 0 else 1 + WordLen(s[1..])
  }

  /** `str.split()` without a separator: the maximal runs of non-whitespace,
      in order; runs of whitespace, leading and trailing included, only
      separate them. */
  function Split(s: string): (ws: seq<string>)
    ensures forall k :: 0 <= k < |ws| ==> IsWord(ws[k])
    decreases |s|
  {
    if s == [] then []
    else if IsSpace(s[0]) then Split(s[1..])
    else
      var n := WordLen(s);
      [s[..n]] + Split(s[n..])
  }

  /** `' '.join(ws)`. */
  function Join(ws: seq<string>): string
  {
    if |ws| == 0 then []
    else if |ws| == 1 then ws[0]
    else ws[0] + " " + Join(ws[1..])
  }

  /** `' '.join(s.split())`: every run of whitespace becomes one space and
      the ends are trimmed. */
  function Collapse(s: string): string
  {
    Join(Split(s))
  }

  /** A string already in collapsed form: no whitespace at either end, the
      only whitespace is the plain space, and never two of them in a row. */
  predicate Collapsed(s: string)
  {
    && (|s| > 0 ==> !IsSpace(s[0]) && !IsSpace(s[|s| - 1]))
    && (forall i :: 0 <= i < |s| && IsSpace(s[i]) ==> s[i] == ' ')
    && (forall i :: 0 <= i < |s| - 1 && IsSpace(s[i]) ==> !IsSpace(s[i + 1]))
  }

  lemma {:induction false} WordLenOfWord(w: string, t: string)
    requires IsWord(w)
    requires t == [] || IsSpace(t[0])
    ensures WordLen(w + t) == |w|
    decreases |w|
  {
    if |w| > 1 {
      assert (w + t)[1..] == w[1..] + t;
      WordLenOfWord(w[1..], t);
    } else {
      assert (w + t)[1..] == t;
    }
  }

  /** Splitting a word followed by whitespace (or nothing) yields that word
      first. */
  lemma SplitAfterWord(w: string, t: string)
    requires IsWord(w)
    requires t == [] || IsSpace(t[0])
    ensures Split(w + t) == [w] + Split(t)
  {
    WordLenOfWord(w, t);
    assert (w + t)[..|w|] == w;
    assert (w + t)[|w|..] == t;
  }

  lemma JoinCons(w: string, ws: seq<string>)
    requires |ws| > 0
    ensures Join([w] + ws) == w + " " + Join(ws)
  {
    assert ([w] + ws)[1..] == ws;
  }

  lemma {:induction false} JoinStartsWithWord(ws: seq<string>)
    requires |ws| > 0
    requires forall k :: 0 <= k < |ws| ==> IsWord(ws[k])
    ensures |Join(ws)| > 0 && !IsSpace(Join(ws)[0])
  {
    if |ws| > 1 {
      assert Join(ws)[0] == ws[0][0];
    }
  }

  /** Splitting a join of words gives the words back: `split` inverts
      `' '.join` on lists of words. */
  lemma {:induction false} SplitJoin(ws: seq<string>)
    requires forall k :: 0 <= k < |ws| ==> IsWord(ws[k])
    ensures Split(Join(ws)) == ws
  {
    if |ws| == 0 {
    } else if |ws| == 1 {
      SplitAfterWord(ws[0], []);
      assert ws[0] + [] == ws[0];
    } else {
      var rest := Join(ws[1..]);
      SplitJoin(ws[1..]);
      JoinStartsWithWord(ws[1..]);
      SplitAfterWord(ws[0], " " + rest);
      assert ws[0] + " " + rest == ws[0] + (" " + rest);
      assert (" " + rest)[1..] == rest;
      assert [ws[0]] + ws[1..] == ws;
    }
  }

  /** A join of words is in collapsed form. */
  lemma {:induction false} JoinCollapsed(ws: seq<string>)
    requires forall k :: 0 <= k < |ws| ==> IsWord(ws[k])
    ensures Collapsed(Join(ws))
  {
    if |ws| > 1 {
      var w := ws[0];
      var rest := Join(ws[1..]);
      JoinCollapsed(ws[1..]);
      JoinStartsWithWord(ws[1..]);
      var s := w + " " + rest;
      assert Join(ws) == s;
      forall i | 0 <= i < |s|
        ensures IsSpace(s[i]) ==> s[i] == ' '
        ensures IsSpace(s[i]) && i < |s| - 1 ==> !IsSpace(s[i + 1])
      {
        if i < |w| {
          assert s[i] == w[i];
        } else if i == |w| {
          assert s[i + 1] == rest[0];
        } else {
          assert s[i] == rest[i - |w| - 1];
          if i < |s| - 1 {
            assert s[i + 1] == rest[i - |w|];
          }
        }
      }
      assert s[|s| - 1] == rest[|rest| - 1];
      assert s[0] == w[0];
    }
  }

  /** A collapsed string is rebuilt exactly from its words. */
  lemma {:induction false} CollapsedRejoins(s: string)
    requires Collapsed(s)
    ensures Join(Split(s)) == s
    decreases |s|
  {
    if s != [] {
      var n := WordLen(s);
      var w := s[..n];
      assert n > 0;
      if n == |s| {
        assert s[n..] == [];
        assert Split(s) == [w];
      } else {
        var t := s[n + 1..];
        assert s[n] == ' ';
        assert n + 1 < |s|;
        assert !IsSpace(s[n + 1]);
        assert Collapsed(t) by {
          forall i | 0 <= i < |t| && IsSpace(t[i])
            ensures t[i] == ' '
            ensures i < |t| - 1 ==> !IsSpace(t[i + 1])
          {
            assert t[i] == s[n + 1 + i];
          }
        }
        assert s[n..][1..] == t;
        assert Split(s[n..]) == Split(t);
        CollapsedRejoins(t);
        assert Split(t) != [] by {
          assert Split(t) == [t[..WordLen(t)]] + Split(t[WordLen(t)..]);
        }
        assert Split(s) == [w] + Split(t);
        JoinCons(w, Split(t));
        assert s == w + " " + t;
      }
    }
  }

  /** The strings `Collapse` leaves alone are exactly the collapsed ones. */
  lemma CollapseFixpoints(s: string)
    ensures Collapse(s) == s <==> Collapsed(s)
  {
    JoinCollapsed(Split(s));
    if Collapsed(s) {
      CollapsedRejoins(s);
    }
  }

  /** `Collapse` keeps the words, yields a collapsed string, and is
      idempotent. */
  lemma CollapseProperties(s: string)
    ensures Split(Collapse(s)) == Split(s)
    ensures Collapsed(Collapse(s))
    ensures Collapse(Collapse(s)) == Collapse(s)
  {
    SplitJoin(Split(s));
    JoinCollapsed(Split(s));
  }

  /** Two collapsed strings with the same words are equal, so the words and
      the collapsed form together pin down what `Collapse` returns. */
  lemma CollapsedUnique(a: string, b: string)
    requires Collapsed(a) && Collapsed(b)
    requires Split(a) == Split(b)
    ensures a == b
  {
    CollapsedRejoins(a);
    CollapsedRejoins(b);
  }

  /** `Collapse` never lengthens a string. */
  lemma {:induction false} CollapseShorter(s: string)
    ensures |Collapse(s)| <= |s|
    decreases |s|
  {
    if s == [] {
    } else if IsSpace(s[0]) {
      CollapseShorter(s[1..]);
    } else {
      var n := WordLen(s);
      var rest := Split(s[n..]);
      assert Split(s) == [s[..n]] + rest;
      if rest == [] {
        assert Join([s[..n]]) == s[..n];
      } else {
        assert n < |s|;
        assert s[n..][1..] == s[n + 1..];
        assert rest == Split(s[n + 1..]);
        CollapseShorter(s[n + 1..]);
        JoinCons(s[..n], rest);
      }
    }
  }

  // ---------------------------------------------------------------- title

  /** Letters whose case has a one-character counterpart: ASCII and the
      Latin-1 letters (ó, ç, ã, ...). */
  predicate IsUpper(c: char)
  {
    ('A' <= c <= 'Z') || ('\U{C0}' <= c <= '\U{DE}' && c != '\U{D7}')
  }

  predicate IsLower(c: char)
  {
    ('a' <= c <= 'z') || ('\U{E0}' <= c <= '\U{FE}' && c != '\U{F7}')
  }

  predicate IsCased(c: char)
  {
    IsUpper(c) || IsLower(c)
  }

  function ToUpper(c: char): (u: char)
    ensures IsCased(u) == IsCased(c)
    ensures IsCased(c) ==> IsUpper(u)
    ensures !IsCased(c) ==> u == c
  {
    if IsLower(c) then (c as int - 32) as char else c
  }

  function ToLower(c: char): (l: char)
    ensures IsCased(l) == IsCased(c)
    ensures IsCased(c) ==> IsLower(l)
    ensures !IsCased(c) ==> l == c
  {
    if IsUpper(c) then (c as int + 32) as char else c
  }

  /** `str.title()` from position 0 on, given whether the character before
      was cased: a cased character is lower-cased when it follows a cased
      character and upper-cased otherwise. */
  function TitleFrom(s: string, afterCased: bool): (r: string)
    ensures |r| == |s|
    ensures forall i :: 0 <= i < |s| ==>
      r[i] == (if (if i == 0 then afterCased else IsCased(s[i - 1])) then ToLower(s[i]) else ToUpper(s[i]))
  {
    if s == [] then []
    else
      var c := if afterCased then ToLower(s[0]) else ToUpper(s[0]);
      [c] + TitleFrom(s[1..], IsCased(s[0]))
  }

  function Title(s: string): string
  {
    TitleFrom(s, false)
  }

  /** Position by position: upper-cased at the start of a cased run,
      lower-cased inside one. */
  lemma TitleAt(s: string, i: int)
    requires 0 <= i < |s|
    ensures |Title(s)| == |s|
    ensures Title(s)[i] == if i > 0 && IsCased(s[i - 1]) then ToLower(s[i]) else ToUpper(s[i])
  {
    var t := TitleFrom(s, false);
    assert t[i] == (if (if i == 0 then false else IsCased(s[i - 1])) then ToLower(s[i]) else ToUpper(s[i]));
  }

  /** Every cased character is upper-case exactly when it starts a run of
      cased characters. */
  predicate IsTitled(r: string)
  {
    forall i :: 0 <= i < |r| ==> StartsCasedRunIffUpper(r, i)
  }

  predicate StartsCasedRunIffUpper(r: string, i: int)
    requires 0 <= i < |r|
  {
    IsCased(r[i]) ==> (IsUpper(r[i]) <==> (i == 0 || !IsCased(r[i - 1])))
  }

  predicate SameUpToCase(a: string, b: string)
  {
    |a| == |b| && forall i :: 0 <= i < |a| ==> ToLower(a[i]) == ToLower(b[i])
  }

  lemma CaseFacts(c: char)
    ensures ToLower(ToUpper(c)) == ToLower(c) && ToUpper(ToLower(c)) == ToUpper(c)
    ensures IsUpper(c) ==> ToUpper(c) == c
    ensures IsLower(c) ==> ToLower(c) == c
    ensures IsSpace(c) ==> !IsCased(c)
  {
  }

  lemma SameLowerSameUpper(a: char, b: char)
    requires ToLower(a) == ToLower(b)
    ensures ToUpper(a) == ToUpper(b)
    ensures IsCased(a) == IsCased(b)
  {
    CaseFacts(a);
    CaseFacts(b);
  }

  /** `Title(s)` is the one titled string that equals `s` up to case. */
  lemma TitleCharacterization(s: string, r: string)
    ensures r == Title(s) <==> IsTitled(r) && SameUpToCase(r, s)
  {
    var t := Title(s);
    assert IsTitled(t) && SameUpToCase(t, s) by {
      forall i | 0 <= i < |t|
        ensures ToLower(t[i]) == ToLower(s[i])
        ensures IsCased(t[i]) == IsCased(s[i])
      {
        TitleAt(s, i);
        CaseFacts(s[i]);
      }
      forall i | 0 <= i < |t|
        ensures StartsCasedRunIffUpper(t, i)
      {
        TitleAt(s, i);
        CaseFacts(s[i]);
        if i > 0 {
          TitleAt(s, i - 1);
          CaseFacts(s[i - 1]);
        }
      }
    }
    if IsTitled(r) && SameUpToCase(r, s) {
      forall i | 0 <= i < |r|
        ensures r[i] == t[i]
      {
        TitleAt(s, i);
        SameLowerSameUpper(r[i], s[i]);
        CaseFacts(r[i]);
        CaseFacts(s[i]);
        if i > 0 {
          SameLowerSameUpper(r[i - 1], s[i - 1]);
        }
        assert ToLower(r[i]) == ToLower(s[i]);
        if IsCased(r[i]) {
          assert StartsCasedRunIffUpper(r, i);
          if IsUpper(r[i]) {
            assert r[i] == ToUpper(s[i]);
          } else {
            assert r[i] == ToLower(s[i]);
          }
        } else {
          assert r[i] == s[i];
        }
      }
    }
  }

  /** Title-casing changes no whitespace and no length. */
  lemma TitleKeepsSpaces(s: string)
    ensures |Title(s)| == |s|
    ensures forall i :: 0 <= i < |s| ==> IsSpace(Title(s)[i]) == IsSpace(s[i])
  {
    forall i | 0 <= i < |s|
      ensures IsSpace(Title(s)[i]) == IsSpace(s[i])
    {
      TitleAt(s, i);
      CaseFacts(s[i]);
      CaseFacts(Title(s)[i]);
    }
  }

  lemma TitleIdempotent(s: string)
    ensures Title(Title(s)) == Title(s)
  {
    var t := Title(s);
    TitleCharacterization(s, t);
    assert SameUpToCase(t, t);
    TitleCharacterization(t, t);
  }
}
