/**
 The badge label: `formatName` trims a full name, splits it on runs of
 whitespace and, when there are at least two words, shortens it to
 "First L." (the first word, a space, the first character of the last word
 and a period). A name of one word, an empty name and a name of whitespace
 only come back exactly as they were given, untrimmed.

 Strings are sequences of characters. `Trim` and `Split` follow JavaScript's
 `String.prototype.trim` and `String.prototype.split(/\s+/)`; both use the
 same notion of whitespace, `IsSpace`.
 */
module NameFormat {

  /** JavaScript whitespace: the WhiteSpace and LineTerminator characters,
      which are what both `trim` and the regular-expression class `\s` remove
      or match. */
  predicate IsSpace(c: char) {
    c == '\t' || c == '\n' || c == '\U{000B}' || c == '\U{000C}' || c == '\r'
    || c == ' ' || c == '\U{00A0}' || c == '\U{1680}'
    || ('\U{2000}' <= c <= '\U{200A}')
    || c == '\U{2028}' || c == '\U{2029}' || c == '\U{202F}' || c == '\U{205F}'
    || c == '\U{3000}' || c == '\U{FEFF}'
  }

  predicate AllSpace(s: string) {
    forall i :: 0 <= i < |s| ==> IsSpace(s[i])
  }

  predicate HasSpace(s: string) {
    exists i :: 0 <= i < |s| && IsSpace(s[i])
  }

  /** Neither end of `s` is whitespace: the shape `trim` produces. */
  predicate Trimmed(s: string) {
    s == [] || (!IsSpace(s[0]) && !IsSpace(s[|s| - 1]))
  }

  /** `s` without its leading whitespace (JavaScript `trimStart`); that it is
      a suffix of `s` is TrimStartIsSuffix. */
  function TrimStart(s: string): (r: string)
    ensures |r| <= |s|
    ensures AllSpace(s[..|s| - |r|])
    ensures r == [] || !IsSpace(r[0])
    ensures s != [] && IsSpace(s[0]) ==> |r| < |s|
  {
    if s != [] && IsSpace(s[0]) then
      var r := TrimStart(s[1..]);
      assert AllSpace(s[..|s| - |r|]) by {
        forall i | 0 <= i < |s| - |r| ensures IsSpace(s[i]) {
          if i > 0 { assert s[i] == s[1..][..|s| - 1 - |r|][i - 1]; }
        }
      }
      r
    else
      s
  }

  /** `s` without its trailing whitespace (JavaScript `trimEnd`); that it is
      a prefix of `s` is TrimEndIsPrefix. */
  function TrimEnd(s: string): (r: string)
    ensures |r| <= |s|
    ensures AllSpace(s[|r|..])
    ensures r == [] || !IsSpace(r[|r| - 1])
  {
    if s != [] && IsSpace(s[|s| - 1]) then
      var r := TrimEnd(s[..|s| - 1]);
      assert AllSpace(s[|r|..]) by {
        forall i | |r| <= i < |s| ensures IsSpace(s[i]) {
          if i < |s| - 1 { assert s[i] == s[..|s| - 1][|r|..][i - |r|]; }
        }
      }
      r
    else
      s
  }

  /** JavaScript `trim`: `s` without the whitespace at either end. */
  function Trim(s: string): (r: string)
    ensures |r| <= |s|
    ensures Trimmed(r)
  {
    var u := TrimStart(s);
    TrimEndIsPrefix(u);
    TrimEnd(u)
  }

  /** JavaScript `s.split(/\s+/)`: the pieces of `s` between maximal runs of
      whitespace. The first piece is everything before the first run; the
      rest are the pieces of what follows that run. A run at the start or at
      the end gives an empty first or last piece, and the empty string gives
      the single piece "". */
  function Split(s: string): (parts: seq<string>)
    ensures |parts| >= 1
    decreases |s|
  {
    var w := FirstWord(s);
    if |w| == |s| then
      [s]
    else
      [w] + Split(TrimStart(s[|w|..]))
  }

  /** The longest prefix of `s` that holds no whitespace (FirstWordIsPrefix). */
  function FirstWord(s: string): (w: string)
    ensures |w| <= |s| && !HasSpace(w)
    ensures |w| == |s| || IsSpace(s[|w|])
  {
    if s == [] || IsSpace(s[0]) then
      []
    else
      var w := FirstWord(s[1..]);
      var v := [s[0]] + w;
      assert !HasSpace(v) by {
        forall i | 0 <= i < |v| ensures !IsSpace(v[i]) {
          if i > 0 { assert v[i] == w[i - 1]; }
        }
      }
      v
  }

  /** The longest suffix of `s` that holds no whitespace (LastWordIsSuffix). */
  function LastWord(s: string): (w: string)
    ensures |w| <= |s| && !HasSpace(w)
    ensures |w| == |s| || IsSpace(s[|s| - |w| - 1])
  {
    if s == [] || IsSpace(s[|s| - 1]) then
      []
    else
      var w := LastWord(s[..|s| - 1]);
      var v := w + [s[|s| - 1]];
      assert !HasSpace(v) by {
        forall i | 0 <= i < |v| ensures !IsSpace(v[i]) {
          if i < |w| { assert v[i] == w[i]; }
        }
      }
      v
  }

  /** `formatName` (server.js): the short badge label of a full name. With
      whitespace left inside the trimmed name, the label is its first word, a
      space, the first character of its last word and a period; otherwise the
      label is the argument itself, untrimmed. */
  function FormatName(fullName: string): (tag: string)
    ensures var t := Trim(fullName);
            HasSpace(t) ==> |LastWord(t)| > 0
                            && tag == FirstWord(t) + " " + [LastWord(t)[0]] + "."
    ensures !HasSpace(Trim(fullName)) ==> tag == fullName
  {
    var t := Trim(fullName);
    var parts := Split(t);
    SplitMoreThanOne(t);
    if |parts| > 1 then
      SplitFirst(t);
      SplitLast(t);
      parts[0] + " " + [parts[|parts| - 1][0]] + "."
    else
      fullName
  }

  // ---------------------------------------------------------------------
  // Trimming

  /** Cutting a string in two and joining the halves gives it back. */
  lemma SliceJoin(s: string, k: nat)
    requires k <= |s|
    ensures s == s[..k] + s[k..]
  {
  }

  lemma {:induction false} TrimStartIsSuffix(s: string)
    ensures TrimStart(s) == s[|s| - |TrimStart(s)|..]
    decreases |s|
  {
    if s != [] && IsSpace(s[0]) {
      TrimStartIsSuffix(s[1..]);
    }
  }

  lemma {:induction false} TrimEndIsPrefix(s: string)
    ensures TrimEnd(s) == s[..|TrimEnd(s)|]
    decreases |s|
  {
    if s != [] && IsSpace(s[|s| - 1]) {
      TrimEndIsPrefix(s[..|s| - 1]);
    }
  }

  /** `Trim` takes off whitespace at the two ends and nothing else: `s` is
      a run of whitespace, then `Trim(s)`, then a run of whitespace. */
  lemma TrimDropsEdgeWhitespace(s: string)
    ensures exists i | 0 <= i <= |s| - |Trim(s)| ::
              Trim(s) == s[i..i + |Trim(s)|]
              && AllSpace(s[..i]) && AllSpace(s[i + |Trim(s)|..])
  {
    var u := TrimStart(s);
    var r := TrimEnd(u);
    var i := |s| - |u|;
    TrimStartIsSuffix(s);
    TrimEndIsPrefix(u);
    assert r == s[i..i + |r|];
    assert AllSpace(s[i + |r|..]) by {
      assert s[i + |r|..] == u[|r|..];
    }
  }

  /** Leading whitespace before a string that does not start with whitespace
      is exactly what `TrimStart` removes. */
  lemma {:induction false} TrimStartAfterSpace(p: string, x: string)
    requires AllSpace(p)
    requires x == [] || !IsSpace(x[0])
    ensures TrimStart(p + x) == x
    decreases |p|
  {
    if p == [] {
      assert p + x == x;
    } else {
      assert (p + x)[0] == p[0];
      assert (p + x)[1..] == p[1..] + x;
      TrimStartAfterSpace(p[1..], x);
    }
  }

  /** Trailing whitespace after a string that does not end in whitespace is
      exactly what `TrimEnd` removes. */
  lemma {:induction false} TrimEndBeforeSpace(y: string, q: string)
    requires AllSpace(q)
    requires y == [] || !IsSpace(y[|y| - 1])
    ensures TrimEnd(y + q) == y
    decreases |q|
  {
    if q == [] {
      assert y + q == y;
    } else {
      var q' := q[..|q| - 1];
      assert (y + q)[|y + q| - 1] == q[|q| - 1];
      assert (y + q)[..|y + q| - 1] == y + q';
      TrimEndBeforeSpace(y, q');
    }
  }

  /** Trimming whitespace-padded text that does not itself start or end with
      whitespace gives back that text. */
  lemma TrimPadded(p1: string, m: string, p2: string)
    requires AllSpace(p1) && AllSpace(p2) && Trimmed(m)
    ensures Trim(p1 + m + p2) == m
  {
    if m == [] {
      assert p1 + m + p2 == p1 + p2;
      assert AllSpace(p1 + p2) by {
        forall i | 0 <= i < |p1 + p2| ensures IsSpace((p1 + p2)[i]) {
          if i >= |p1| { assert (p1 + p2)[i] == p2[i - |p1|]; }
        }
      }
      TrimAllSpace(p1 + p2);
    } else {
      assert p1 + m + p2 == p1 + (m + p2);
      TrimStartAfterSpace(p1, m + p2);
      TrimEndBeforeSpace(m, p2);
    }
  }

  /** Trimming a string that is already trimmed changes nothing. */
  lemma TrimTrimmed(s: string)
    requires Trimmed(s)
    ensures Trim(s) == s
  {
    assert [] + s + [] == s;
    TrimPadded([], s, []);
  }

  /** Trimming a string of whitespace only leaves nothing. */
  lemma TrimAllSpace(s: string)
    requires AllSpace(s)
    ensures Trim(s) == []
  {
    assert s + [] == s;
    TrimStartAfterSpace(s, []);
  }

  // ---------------------------------------------------------------------
  // Words and splitting

  lemma {:induction false} FirstWordIsPrefix(s: string)
    ensures FirstWord(s) == s[..|FirstWord(s)|]
    decreases |s|
  {
    if s != [] && !IsSpace(s[0]) {
      FirstWordIsPrefix(s[1..]);
    }
  }

  lemma {:induction false} LastWordIsSuffix(s: string)
    ensures LastWord(s) == s[|s| - |LastWord(s)|..]
    decreases |s|
  {
    if s != [] && !IsSpace(s[|s| - 1]) {
      var t := s[..|s| - 1];
      LastWordIsSuffix(t);
      var w := LastWord(t);
      assert LastWord(s) == w + [s[|s| - 1]];
      assert s[|s| - |w| - 1..] == t[|t| - |w|..] + [s[|s| - 1]];
    }
  }

  /** A whitespace-free prefix followed by whitespace or the end of `s` is
      the first word. */
  lemma {:induction false} FirstWordUnique(s: string, k: nat)
    requires k <= |s| && !HasSpace(s[..k])
    requires k == |s| || IsSpace(s[k])
    ensures FirstWord(s) == s[..k]
    decreases k
  {
    if k > 0 {
      assert s[0] == s[..k][0];
      var t := s[1..];
      var pre := t[..k - 1];
      assert !HasSpace(pre) by {
        forall i | 0 <= i < |pre| ensures !IsSpace(pre[i]) {
          assert pre[i] == s[..k][i + 1];
        }
      }
      assert k - 1 < |t| ==> t[k - 1] == s[k];
      FirstWordUnique(t, k - 1);
      assert s[..k] == [s[0]] + t[..k - 1];
    }
  }

  /** A whitespace-free suffix preceded by whitespace or the start of `s` is
      the last word. */
  lemma {:induction false} LastWordUnique(s: string, k: nat)
    requires k <= |s| && !HasSpace(s[k..])
    requires k == 0 || IsSpace(s[k - 1])
    ensures LastWord(s) == s[k..]
    decreases |s| - k
  {
    if k < |s| {
      assert s[|s| - 1] == s[k..][|s| - 1 - k];
      var t := s[..|s| - 1];
      var post := t[k..];
      assert !HasSpace(post) by {
        forall i | 0 <= i < |post| ensures !IsSpace(post[i]) {
          assert post[i] == s[k..][i];
        }
      }
      assert k > 0 ==> t[k - 1] == s[k - 1];
      LastWordUnique(t, k);
      assert s[k..] == t[k..] + [s[|s| - 1]];
    }
  }

  /** A string without whitespace is its own first and last word. */
  lemma NoSpaceWord(s: string)
    requires !HasSpace(s)
    ensures FirstWord(s) == s && LastWord(s) == s
  {
    assert s[..|s|] == s && s[0..] == s;
    FirstWordUnique(s, |s|);
    LastWordUnique(s, 0);
  }

  /** Dropping a prefix that ends in whitespace, or any prefix when the rest
      still holds whitespace, leaves the last word unchanged. */
  lemma {:induction false} LastWordAfterPrefix(p: string, t: string)
    requires p == [] || IsSpace(p[|p| - 1]) || HasSpace(t)
    ensures LastWord(p + t) == LastWord(t)
    decreases |t|
  {
    if t == [] {
      assert p + t == p;
    } else if IsSpace(t[|t| - 1]) {
      assert (p + t)[|p + t| - 1] == t[|t| - 1];
    } else {
      var t' := t[..|t| - 1];
      assert (p + t)[|p + t| - 1] == t[|t| - 1];
      assert (p + t)[..|p + t| - 1] == p + t';
      if HasSpace(t) {
        var i :| 0 <= i < |t| && IsSpace(t[i]);
        assert i < |t'| && t'[i] == t[i];
      }
      LastWordAfterPrefix(p, t');
    }
  }

  /** One step of `Split` on a string that holds whitespace. */
  lemma SplitStep(s: string)
    requires |FirstWord(s)| < |s|
    ensures Split(s) == [FirstWord(s)] + Split(TrimStart(s[|FirstWord(s)|..]))
  {
  }

  /** Splitting yields more than one piece exactly when there is whitespace. */
  lemma SplitMoreThanOne(s: string)
    ensures |Split(s)| > 1 <==> HasSpace(s)
  {
    var w := FirstWord(s);
    if |w| == |s| {
      FirstWordIsPrefix(s);
      assert w == s;
    } else {
      SplitStep(s);
    }
  }

  /** The first piece is everything before the first whitespace character. */
  lemma SplitFirst(s: string)
    ensures Split(s)[0] == FirstWord(s)
  {
    var w := FirstWord(s);
    if |w| == |s| {
      FirstWordIsPrefix(s);
    } else {
      SplitStep(s);
    }
  }

  /** A string without whitespace splits into itself alone. */
  lemma SplitNoSpace(s: string)
    requires !HasSpace(s)
    ensures Split(s) == [s]
  {
    NoSpaceWord(s);
  }

  /** No piece holds whitespace. */
  lemma {:induction false} SplitPiecesHaveNoSpace(s: string)
    ensures forall k :: 0 <= k < |Split(s)| ==> !HasSpace(Split(s)[k])
    decreases |s|
  {
    var w := FirstWord(s);
    if |w| == |s| {
      FirstWordIsPrefix(s);
      assert w == s;
    } else {
      var rest := TrimStart(s[|w|..]);
      SplitPiecesHaveNoSpace(rest);
      SplitStep(s);
      forall k | 0 <= k < |Split(s)| ensures !HasSpace(Split(s)[k]) {
        if k > 0 { assert Split(s)[k] == Split(rest)[k - 1]; }
      }
    }
  }

  /** The last piece is everything after the last whitespace character. */
  lemma {:induction false} SplitLast(s: string)
    ensures Split(s)[|Split(s)| - 1] == LastWord(s)
    decreases |s|
  {
    var w := FirstWord(s);
    if |w| == |s| {
      FirstWordIsPrefix(s);
      assert w == s;
      NoSpaceWord(s);
    } else {
      var rest := TrimStart(s[|w|..]);
      SplitLast(rest);
      SplitStep(s);
      assert Split(s)[|Split(s)| - 1] == Split(rest)[|Split(rest)| - 1];
      LastWordAfterRun(s);
    }
  }

  /** The text after the first word and the whitespace run that follows it
      has the same last word as the whole string. */
  lemma LastWordAfterRun(s: string)
    requires |FirstWord(s)| < |s|
    ensures LastWord(s) == LastWord(TrimStart(s[|FirstWord(s)|..]))
  {
    var w := FirstWord(s);
    var x := s[|w|..];
    var rest := TrimStart(x);
    TrimStartIsSuffix(x);
    var k := |s| - |rest|;
    assert rest == s[k..];
    var p := s[..k];
    SliceJoin(s, k);
    // the character just before `rest` belongs to the run after `w`
    assert x[|x| - |rest| - 1] == x[..|x| - |rest|][|x| - |rest| - 1];
    assert p[k - 1] == x[|x| - |rest| - 1];
    LastWordAfterPrefix(p, rest);
  }



  /** Two whitespace-free words joined by one space split back into the two
      words. */
  lemma SplitTwoWords(a: string, b: string)
    requires !HasSpace(a) && !HasSpace(b)
    ensures Split(a + " " + b) == [a, b]
  {
    var s := a + " " + b;
    FirstWordBeforeSpace(a, b);
    AfterSpace(a, b);
    SplitStep(s);
    SplitNoSpace(b);
  }

  lemma FirstWordBeforeSpace(a: string, b: string)
    requires !HasSpace(a)
    ensures FirstWord(a + " " + b) == a
  {
    var s := a + " " + b;
    assert s[..|a|] == a;
    assert s[|a|] == ' ';
    FirstWordUnique(s, |a|);
  }

  lemma AfterSpace(a: string, b: string)
    requires !HasSpace(b)
    ensures TrimStart((a + " " + b)[|a|..]) == b
  {
    assert (a + " " + b)[|a|..] == [' '] + b;
    assert AllSpace([' ']);
    assert b == [] || !IsSpace(b[0]);
    TrimStartAfterSpace([' '], b);
  }

  // ---------------------------------------------------------------------
  // The label

  /** The label of a name of two or more words is itself two words: the first
      word of the name, and the initial of its last word followed by a period.
      Every middle word is dropped. */
  lemma LabelIsTwoWords(fullName: string)
    requires HasSpace(Trim(fullName))
    ensures var t := Trim(fullName);
            Split(FormatName(fullName)) == [FirstWord(t), [LastWord(t)[0], '.']]
  {
    var t := Trim(fullName);
    var initial := [LastWord(t)[0], '.'];
    assert !HasSpace(initial) by {
      assert !IsSpace(LastWord(t)[0]);
      forall i | 0 <= i < 2 ensures !IsSpace(initial[i]) { }
    }
    assert FormatName(fullName) == FirstWord(t) + " " + initial;
    SplitTwoWords(FirstWord(t), initial);
  }

  /** A name that is empty or all whitespace comes back unchanged; the label
      never fails. */
  lemma BlankNameUnchanged(fullName: string)
    requires AllSpace(fullName)
    ensures FormatName(fullName) == fullName
  {
    TrimAllSpace(fullName);
  }

  /** A single word keeps the whitespace around it: the label is the
      argument, not its trimmed form. */
  lemma OneWordUnchanged(pad1: string, word: string, pad2: string)
    requires AllSpace(pad1) && AllSpace(pad2)
    requires !HasSpace(word)
    ensures FormatName(pad1 + word + pad2) == pad1 + word + pad2
  {
    TrimPadded(pad1, word, pad2);
  }

  /** The label of "First Last" is "First L.". */
  lemma TwoWordLabel(first: string, last: string)
    requires first != [] && last != []
    requires !HasSpace(first) && !HasSpace(last)
    ensures FormatName(first + " " + last) == first + " " + [last[0]] + "."
  {
    var t := first + " " + last;
    assert t[|first|] == ' ';
    assert t[..|first|] == first && t[|first| + 1..] == last;
    TrimTrimmed(t);
    FirstWordUnique(t, |first|);
    LastWordUnique(t, |first| + 1);
  }

  // Worked examples of the label. Each names its input as a parameter fixed
  // by the precondition, which keeps the solver from evaluating the
  // recursive definitions on the literal.

  lemma TwoWordExample(name: string)
    requires name == "Jane Doe"
    ensures FormatName(name) == "Jane D."
  {
    TrimTrimmed(name);
    assert IsSpace(name[4]);
    FirstWordUnique(name, 4);
    assert name[..4] == "Jane";
    LastWordUnique(name, 5);
    assert name[5..] == "Doe";
  }

  lemma MiddleWordsDroppedExample(name: string)
    requires name == "  Mary   Jane   Watson  "
    ensures FormatName(name) == "Mary W."
  {
    PaddedNameTrims(name, "Mary   Jane   Watson");
    LabelOfMaryJaneWatson(name);
  }

  lemma LabelOfMaryJaneWatson(name: string)
    requires Trim(name) == "Mary   Jane   Watson"
    ensures FormatName(name) == "Mary W."
  {
    WordsOfPaddedName(Trim(name));
    LabelFromWords(name, "Mary", 'W');
    assert "Mary" + [' ', 'W', '.'] == "Mary W.";
  }

  /** The label is fixed by the first word and the initial of the last word of the trimmed name. */
  lemma LabelFromWords(name: string, first: string, initial: char)
    requires HasSpace(Trim(name)) && FirstWord(Trim(name)) == first
    requires |LastWord(Trim(name))| > 0 && LastWord(Trim(name))[0] == initial
    ensures FormatName(name) == first + [' ', initial, '.']
  {
  }

  lemma PaddedNameTrims(name: string, t: string)
    requires name == "  Mary   Jane   Watson  " && t == "Mary   Jane   Watson"
    ensures Trim(name) == t
  {
    assert name == "  " + t + "  ";
    TrimPadded("  ", t, "  ");
  }

  lemma WordsOfPaddedName(t: string)
    requires t == "Mary   Jane   Watson"
    ensures HasSpace(t) && FirstWord(t) == "Mary" && LastWord(t) == "Watson"
  {
    assert IsSpace(t[4]);
    FirstWordUnique(t, 4);
    assert t[..4] == "Mary";
    LastWordUnique(t, 14);
    assert t[14..] == "Watson";
  }

  lemma OneWordExample(name: string)
    requires name == "Madonna"
    ensures FormatName(name) == "Madonna"
  {
    assert name == "" + "Madonna" + "";
    OneWordUnchanged("", "Madonna", "");
  }

  lemma PaddedOneWordExample(name: string)
    requires name == " Cher "
    ensures FormatName(name) == " Cher "
  {
    assert name == " " + "Cher" + " ";
    OneWordUnchanged(" ", "Cher", " ");
  }

  lemma BlankExample(name: string)
    requires name == "" || name == "   "
    ensures FormatName(name) == name
  {
    BlankNameUnchanged(name);
  }
}
