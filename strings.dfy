/** The Python `str` operations the pipeline relies on: `isspace`, `isalpha`,
    `lower`, `split()` with no argument and `' '.join`. */
module Strings {

  /** `c.isspace()`: the ASCII whitespace and separator controls, and the
      Unicode space and line/paragraph separator code points. */
  predicate IsSpace(c: char) {
    var n := c as int;
    || 9 <= n <= 13
    || 28 <= n <= 32
    || n == 0x85 || n == 0xA0 || n == 0x1680
    || 0x2000 <= n <= 0x200A
    || n == 0x2028 || n == 0x2029 || n == 0x202F || n == 0x205F || n == 0x3000
  }

  /** `c.isalpha()`, restricted to the ASCII letters. */
  predicate IsLetter(c: char) {
    'a' <= c <= 'z' || 'A' <= c <= 'Z'
  }

  predicate IsLowerLetter(c: char) {
    'a' <= c <= 'z'
  }

  /** `c.lower()` on the ASCII range. */
  function LowerChar(c: char): (d: char)
    ensures IsLetter(c) ==> IsLowerLetter(d)
    ensures IsLetter(c) <==> IsLetter(d)
    ensures !IsLetter(c) ==> d == c
  {
    if 'A' <= c <= 'Z' then (c as int - 'A' as int + 'a' as int) as char else c
  }

  /** `s.lower()`. */
  function LowerCase(s: string): (r: string)
    ensures |r| == |s|
    ensures forall i :: 0 <= i < |s| ==> r[i] == LowerChar(s[i])
  {
    if s == [] then [] else [LowerChar(s[0])] + LowerCase(s[1..])
  }

  /** Lowercasing leaves text that has no uppercase letter unchanged. */
  lemma LowerCaseOfLower(s: string)
    requires forall i :: 0 <= i < |s| ==> !('A' <= s[i] <= 'Z')
    ensures LowerCase(s) == s
  {
  }

  /** A word as `split()` produces it: non-empty, without whitespace. */
  ghost predicate IsWord(w: string) {
    |w| > 0 && forall i :: 0 <= i < |w| ==> !IsSpace(w[i])
  }

  /** The text `' '.join` builds from words: its only whitespace is the plain space,
      never at either end and never twice in a row. */
  ghost predicate SingleSpaced(s: string) {
    forall i :: 0 <= i < |s| && IsSpace(s[i]) ==> s[i] == ' ' && 0 < i < |s| - 1 && !IsSpace(s[i + 1])
  }

  /** The length of the leading run of non-whitespace characters of `s`. */
  function WordLength(s: string): (n: nat)
    ensures n <= |s|
    ensures forall i :: 0 <= i < n ==> !IsSpace(s[i])
    ensures n < |s| ==> IsSpace(s[n])
  {
    if s == [] || IsSpace(s[0]) then 0 else 1 + WordLength(s[1..])
  }

  /** `s.split()`: the maximal runs of non-whitespace characters, left to right. */
  function Split(s: string): (words: seq<string>)
    ensures forall w :: w in words ==> IsWord(w)
    ensures forall w, c :: w in words && c in w ==> c in s
    decreases |s|
  {
    if s == [] then []
    else if IsSpace(s[0]) then Split(s[1..])
    else
      var n := WordLength(s);
      [s[..n]] + Split(s[n..])
  }

  /** `' '.join(words)`: it starts with the first word, and it is empty only for no
      words or a single empty word. */
  function Join(words: seq<string>): (s: string)
    ensures words != [] ==> words[0] <= s
    ensures s == "" <==> words == [] || words == [""]
  {
    if words == [] then ""
    else if |words| == 1 then words[0]
    else words[0] + " " + Join(words[1..])
  }

  lemma {:induction false} WordLengthOfJoined(w: string, rest: string)
    requires IsWord(w)
    requires rest == [] || IsSpace(rest[0])
    ensures WordLength(w + rest) == |w|
    decreases |w|
  {
    if |w| > 1 {
      assert (w + rest)[1..] == w[1..] + rest;
      WordLengthOfJoined(w[1..], rest);
    } else {
      assert (w + rest)[1..] == rest;
    }
  }

  /** Splitting what `' '.join` built gives the words back. */
  lemma {:induction false} SplitJoin(words: seq<string>)
    requires forall w :: w in words ==> IsWord(w)
    ensures Split(Join(words)) == words
  {
    if words == [] {
    } else if |words| == 1 {
      var w := words[0];
      WordLengthOfJoined(w, "");
      assert w + "" == w;
      assert w[|w|..] == [];
    } else {
      var w, j := words[0], Join(words[1..]);
      var s := w + " " + j;
      SplitJoin(words[1..]);
      WordLengthOfJoined(w, " " + j);
      assert s == w + (" " + j);
      assert s[..|w|] == w;
      assert s[|w|..] == " " + j;
      assert (" " + j)[1..] == j;
      assert words == [w] + words[1..];
    }
  }

  /** A single word splits to itself. */
  lemma SplitWord(w: string)
    requires IsWord(w)
    ensures Split(w) == [w]
  {
    SplitJoin([w]);
  }

  /** Joining the words of a single-spaced text gives the text back. */
  lemma {:induction false} JoinSplit(s: string)
    requires SingleSpaced(s)
    ensures Join(Split(s)) == s
    decreases |s|
  {
    if s != [] {
      assert !IsSpace(s[0]);
      var n := WordLength(s);
      if n == |s| {
        assert s[..n] == s && s[n..] == [];
      } else {
        var t := s[n + 1..];
        assert s[n..][1..] == t;
        assert SingleSpaced(t) by {
          forall i | 0 <= i < |t| && IsSpace(t[i])
            ensures t[i] == ' ' && 0 < i < |t| - 1 && !IsSpace(t[i + 1])
          {
            assert t[i] == s[n + 1 + i];
          }
        }
        JoinSplit(t);
        assert !IsSpace(t[0]);
        assert Split(t) != [];
        assert s == s[..n] + " " + t;
      }
    }
  }

  /** `' '.join` of whitespace-free, non-empty words is single-spaced. */
  lemma {:induction false} JoinSingleSpaced(words: seq<string>)
    requires forall w :: w in words ==> IsWord(w)
    ensures SingleSpaced(Join(words))
  {
    if |words| == 1 {
      assert IsWord(words[0]);
    } else if |words| > 1 {
      var w, j := words[0], Join(words[1..]);
      assert IsWord(w);
      JoinSingleSpaced(words[1..]);
      assert IsWord(words[1]);
      assert j[0] == words[1][0];
      var s := w + " " + j;
      assert forall i :: 0 <= i < |w| ==> s[i] == w[i];
      forall i | 0 <= i < |s| && IsSpace(s[i])
        ensures s[i] == ' ' && 0 < i < |s| - 1 && !IsSpace(s[i + 1])
      {
        if i > |w| {
          assert s[i] == j[i - |w| - 1];
          assert i + 1 < |s| ==> s[i + 1] == j[i - |w|];
        }
      }
    }
  }

  /** `' '.join` of words made of letters holds only letters and plain spaces. */
  lemma {:induction false} JoinLetters(words: seq<string>)
    requires forall w :: w in words ==> forall i :: 0 <= i < |w| ==> IsLetter(w[i])
    ensures forall i :: 0 <= i < |Join(words)| ==> IsLetter(Join(words)[i]) || Join(words)[i] == ' '
  {
    if |words| == 1 {
      assert words[0] in words;
    } else if |words| > 1 {
      JoinLetters(words[1..]);
      var w, j := words[0], Join(words[1..]);
      var s := w + " " + j;
      assert words[0] in words;
      assert forall k :: 0 <= k < |w| ==> IsLetter(w[k]);
      assert Join(words) == s;
      forall i | 0 <= i < |s|
        ensures IsLetter(s[i]) || s[i] == ' '
      {
        if i < |w| {
          assert s[i] == w[i];
        } else if i == |w| {
          assert s[i] == ' ';
        } else {
          assert s[i] == j[i - |w| - 1];
        }
      }
    }
  }

  /** The characters of `s` that are not whitespace, in order. */
  function NonSpace(s: string): (r: string)
    ensures |r| <= |s|
  {
    if s == [] then "" else (if IsSpace(s[0]) then "" else [s[0]]) + NonSpace(s[1..])
  }

  lemma {:induction false} NonSpaceConcat(a: string, b: string)
    ensures NonSpace(a + b) == NonSpace(a) + NonSpace(b)
    decreases |a|
  {
    if a == [] {
      assert a + b == b;
    } else {
      assert (a + b)[0] == a[0];
      assert (a + b)[1..] == a[1..] + b;
      NonSpaceConcat(a[1..], b);
    }
  }

  /** `t` preceded by one space, unless `t` is empty. */
  function SpaceBefore(t: string): (r: string)
    ensures t == "" ==> r == ""
    ensures t != "" ==> |r| == |t| + 1 && r[0] == ' ' && r[1..] == t
  {
    if t == "" then "" else " " + t
  }

  /** Whitespace normalisation read character by character: whitespace before the
      first word is dropped, each word character is copied, and a word character
      followed by whitespace is followed by a single space when another word
      follows. */
  function Collapse(s: string): (r: string)
    ensures |r| <= |s|
  {
    if s == [] then ""
    else if IsSpace(s[0]) then Collapse(s[1..])
    else if |s| > 1 && IsSpace(s[1]) then [s[0]] + SpaceBefore(Collapse(s[1..]))
    else [s[0]] + Collapse(s[1..])
  }

  /** Collapsing text that starts with a word copies the word and then collapses
      what follows it. */
  lemma {:induction false} CollapseWord(s: string)
    requires s != [] && !IsSpace(s[0])
    ensures Collapse(s) == s[..WordLength(s)] + SpaceBefore(Collapse(s[WordLength(s)..]))
    decreases |s|
  {
    var n := WordLength(s);
    if |s| == 1 {
      assert n == 1 && s[1..] == [] && s[..n] == s;
    } else if IsSpace(s[1]) {
      assert n == 1 && s[..n] == [s[0]] && s[n..] == s[1..];
    } else {
      CollapseWord(s[1..]);
      CollapseWordStep(s);
    }
  }

  /** The inductive step of `CollapseWord`: a word of two or more characters. */
  lemma {:induction false} CollapseWordStep(s: string)
    requires |s| > 1 && !IsSpace(s[0]) && !IsSpace(s[1])
    requires Collapse(s[1..]) == s[1..][..WordLength(s[1..])] + SpaceBefore(Collapse(s[1..][WordLength(s[1..])..]))
    ensures Collapse(s) == s[..WordLength(s)] + SpaceBefore(Collapse(s[WordLength(s)..]))
  {
    var m := WordLength(s[1..]);
    assert WordLength(s) == 1 + m;
    SliceAfterHead(s, m);
    var word, after := s[1..][..m], SpaceBefore(Collapse(s[1 + m..]));
    assert Collapse(s) == [s[0]] + (word + after);
    AppendAssoc([s[0]], word, after);
  }

  lemma SliceAfterHead(s: string, m: nat)
    requires 1 + m <= |s|
    ensures s[1..][m..] == s[1 + m..]
    ensures [s[0]] + s[1..][..m] == s[..1 + m]
  {
  }

  lemma AppendAssoc(a: string, b: string, c: string)
    ensures a + (b + c) == (a + b) + c
  {
  }

  /** Joining a word in front of further words puts a space between them exactly when
      there are further words. */
  lemma JoinCons(w: string, rest: seq<string>)
    requires forall x :: x in rest ==> IsWord(x)
    ensures Join([w] + rest) == w + SpaceBefore(Join(rest))
  {
    if rest == [] {
      assert w + SpaceBefore("") == w;
    } else {
      assert IsWord(rest[0]);
      assert ([w] + rest)[1..] == rest;
      assert w + (" " + Join(rest)) == w + " " + Join(rest);
    }
  }

  /** For every text, `' '.join(s.split())` is the collapsed text: the words are
      exactly the maximal runs of non-whitespace, in order, each separated by one
      space. */
  lemma {:induction false} SplitCollapse(s: string)
    ensures Join(Split(s)) == Collapse(s)
    decreases |s|
  {
    if s == [] {
    } else if IsSpace(s[0]) {
      SplitCollapse(s[1..]);
    } else {
      var n := WordLength(s);
      var w, rest := s[..n], Split(s[n..]);
      SplitCollapse(s[n..]);
      CollapseWord(s);
      assert Split(s) == [w] + rest;
      JoinCons(w, rest);
    }
  }

  /** Collapsed text is single-spaced, and single-spaced text is its own collapse. */
  lemma CollapseSingleSpaced(s: string)
    ensures SingleSpaced(Collapse(s))
    ensures SingleSpaced(s) ==> Collapse(s) == s
  {
    SplitCollapse(s);
    JoinSingleSpaced(Split(s));
    if SingleSpaced(s) {
      JoinSplit(s);
    }
  }

  lemma NonSpaceSpaceBefore(t: string)
    ensures NonSpace(SpaceBefore(t)) == NonSpace(t)
  {
    if t != "" {
      NonSpaceConcat(" ", t);
    }
  }

  /** Collapsing whitespace loses no other character and changes no order. */
  lemma {:induction false} NonSpaceCollapse(s: string)
    ensures NonSpace(Collapse(s)) == NonSpace(s)
    decreases |s|
  {
    if s != [] {
      NonSpaceCollapse(s[1..]);
      assert s == [s[0]] + s[1..];
      NonSpaceConcat([s[0]], s[1..]);
      if !IsSpace(s[0]) {
        var rest := Collapse(s[1..]);
        var after := if |s| > 1 && IsSpace(s[1]) then SpaceBefore(rest) else rest;
        NonSpaceSpaceBefore(rest);
        assert Collapse(s) == [s[0]] + after;
        NonSpaceConcat([s[0]], after);
      }
    }
  }

  /** Lowercasing and dropping whitespace commute. */
  lemma {:induction false} NonSpaceLowerCase(s: string)
    ensures NonSpace(LowerCase(s)) == LowerCase(NonSpace(s))
    decreases |s|
  {
    if s != [] {
      NonSpaceLowerCase(s[1..]);
      var c := s[0];
      assert s == [c] + s[1..];
      assert LowerCase(s) == [LowerChar(c)] + LowerCase(s[1..]);
      NonSpaceConcat([LowerChar(c)], LowerCase(s[1..]));
      NonSpaceConcat([c], s[1..]);
      assert IsSpace(LowerChar(c)) <==> IsSpace(c);
      var tail := NonSpace(s[1..]);
      if !IsSpace(c) {
        assert ([c] + tail)[1..] == tail;
      }
    }
  }
}
