/**
 * The two pieces of text processing that pick the comic out of a day's page:
 * the XPath predicate that recognises the comic `<img>` by its class list,
 * and the regular expression that cuts the caption down to a title.
 */
module Markup {
  import opened Text

  // ---------------------------------------------------------------------
  // XPath normalize-space() and the class-list test

  /** XPath 1.0 white space: space, tab, carriage return, line feed. */
  predicate IsXmlSpace(c: char) {
    c == ' ' || c == '\t' || c == '\r' || c == '\n'
  }

  /** A class name: non-empty, no white space. */
  predicate IsWord(w: string) {
    w != [] && forall i :: 0 <= i < |w| ==> !IsXmlSpace(w[i])
  }

  /** Length of the run of non-space characters that starts `s`. */
  function WordLength(s: string): (n: nat)
    ensures n <= |s|
    ensures forall i :: 0 <= i < n ==> !IsXmlSpace(s[i])
    ensures n < |s| ==> IsXmlSpace(s[n])
  {
    if s == [] || IsXmlSpace(s[0]) then 0 else 1 + WordLength(s[1..])
  }

  /** The white-space separated tokens of `s`, in order. */
  function Tokens(s: string): (toks: seq<string>)
    ensures forall i :: 0 <= i < |toks| ==> IsWord(toks[i])
    decreases |s|
  {
    if s == [] then []
    else if IsXmlSpace(s[0]) then Tokens(s[1..])
    else
      var n := WordLength(s);
      [s[..n]] + Tokens(s[n..])
  }

  function Join(toks: seq<string>): string {
    if toks == [] then ""
    else if |toks| == 1 then toks[0]
    else toks[0] + " " + Join(toks[1..])
  }

  /** XPath normalize-space(): leading and trailing white space dropped, inner runs collapsed to one space. */
  function NormalizeSpace(s: string): string {
    Join(Tokens(s))
  }

  /**
   * contains(concat(' ', normalize-space(@class), ' '), ' name '): the test the
   * scraper's XPath applies to an `<img>`'s class attribute.
   */
  predicate HasClass(classAttr: string, name: string) {
    Contains(" " + NormalizeSpace(classAttr) + " ", " " + name + " ")
  }

  /** " t1 t2 ... tn " built token by token. */
  function Padded(toks: seq<string>): (s: string)
    ensures s != [] && s[0] == ' '
  {
    if toks == [] then " " else " " + toks[0] + Padded(toks[1..])
  }

  lemma {:induction false} JoinPadded(toks: seq<string>)
    requires toks != []
    ensures " " + Join(toks) + " " == Padded(toks)
  {
    if |toks| > 1 {
      JoinPadded(toks[1..]);
      assert " " + Join(toks) + " " == " " + toks[0] + (" " + Join(toks[1..]) + " ");
    }
  }

  /** A space-led pattern cannot start inside a word. */
  lemma {:induction false} SkipWord(a: string, p: string, w: string)
    requires forall i :: 0 <= i < |a| ==> !IsXmlSpace(a[i])
    requires w != [] && w[0] == ' '
    ensures Contains(a + p, w) <==> Contains(p, w)
    decreases |a|
  {
    if a != [] {
      assert (a + p)[1..] == a[1..] + p;
      SkipWord(a[1..], p, w);
    } else {
      assert a + p == p;
    }
  }

  /** " name " starts " a p" (p led by a space) exactly when name is the word a. */
  lemma PrefixIsFirstToken(a: string, p: string, name: string)
    requires IsWord(a) && IsWord(name)
    requires p != [] && p[0] == ' '
    ensures IsPrefix(" " + name + " ", " " + a + p) <==> name == a
  {
    var w, s := " " + name + " ", " " + a + p;
    if name == a {
      assert s[..|w|] == w;
    }
    if IsPrefix(w, s) {
      assert forall i :: 0 <= i < |w| ==> s[i] == w[i];
      assert forall i :: 0 <= i < |a| ==> s[i + 1] == a[i] && !IsXmlSpace(a[i]);
      assert s[|a| + 1] == p[0] == ' ';
      assert forall i :: 0 <= i < |name| ==> w[i + 1] == name[i] && !IsXmlSpace(name[i]);
      assert w[|name| + 1] == ' ';
      assert |name| == |a|;
      assert w[1..|name| + 1] == s[..|w|][1..|a| + 1] == s[1..|a| + 1];
      assert name == w[1..|name| + 1];
      assert s[1..|a| + 1] == a;
    }
  }

  lemma {:induction false} PaddedHasToken(toks: seq<string>, name: string)
    requires forall i :: 0 <= i < |toks| ==> IsWord(toks[i])
    requires IsWord(name)
    ensures Contains(Padded(toks), " " + name + " ") <==> name in toks
  {
    var w := " " + name + " ";
    if toks == [] {
      if Contains(Padded(toks), w) {
        ContainsFits(Padded(toks), w);
      }
    } else {
      var a, p := toks[0], Padded(toks[1..]);
      var s := " " + a + p;
      assert Padded(toks) == s;
      assert s[1..] == a + p;
      SkipWord(a, p, w);
      PaddedHasToken(toks[1..], name);
      assert name in toks <==> name == a || name in toks[1..];
      PrefixIsFirstToken(a, p, name);
    }
  }

  /** The class test holds exactly when `name` is one of the attribute's tokens. */
  lemma HasClassIffToken(classAttr: string, name: string)
    requires IsWord(name)
    ensures HasClass(classAttr, name) <==> name in Tokens(classAttr)
  {
    var toks := Tokens(classAttr);
    if toks == [] {
      var s := " " + NormalizeSpace(classAttr) + " ";
      if Contains(s, " " + name + " ") {
        ContainsFits(s, " " + name + " ");
      }
    } else {
      JoinPadded(toks);
      PaddedHasToken(toks, name);
    }
  }

  // ---------------------------------------------------------------------
  // re.sub(' - .*$', '', alt)

  /**
   * `.*$` can match from the start of `t`: `.` never matches a line feed and
   * `$` matches at the very end or just before a final line feed.
   */
  predicate RestOfLineToEnd(t: string) {
    forall i :: 0 <= i < |t| - 1 ==> t[i] != '\n'
  }

  /** What `re.sub(' - .*$', '', alt)` returns. */
  function StripTitle(alt: string): (r: string)
    ensures |r| <= |alt|
    decreases |alt|
  {
    if |alt| >= 3 && alt[..3] == " - " && RestOfLineToEnd(alt[3..]) then
      // the match stops short of a final line feed, which survives
      if |alt| > 3 && alt[|alt| - 1] == '\n' then "\n" else ""
    else if alt == [] then []
    else [alt[0]] + StripTitle(alt[1..])
  }

  predicate SeparatorAt(s: string, i: int) {
    0 <= i && i + 3 <= |s| && s[i..i + 3] == " - "
  }

  /**
   * On a one-line caption the title is the caption up to (not including) its
   * first " - "; a caption without " - " is kept whole.
   */
  lemma {:induction false} TitleBeforeFirstSeparator(alt: string)
    requires forall i :: 0 <= i < |alt| ==> alt[i] != '\n'
    ensures IsPrefix(StripTitle(alt), alt)
    ensures forall i :: 0 <= i < |StripTitle(alt)| ==> !SeparatorAt(alt, i)
    ensures |StripTitle(alt)| < |alt| ==> SeparatorAt(alt, |StripTitle(alt)|)
    decreases |alt|
  {
    if |alt| >= 3 && alt[..3] == " - " {
      assert RestOfLineToEnd(alt[3..]);
      assert SeparatorAt(alt, 0);
    } else if alt != [] {
      var tail := alt[1..];
      var rt := StripTitle(tail);
      TitleBeforeFirstSeparator(tail);
      SeparatorShift(alt);
      var r := StripTitle(alt);
      assert r == [alt[0]] + rt;
      assert alt[..|r|] == [alt[0]] + tail[..|rt|];
      assert !SeparatorAt(alt, 0);
      forall i | 1 <= i < |r|
        ensures !SeparatorAt(alt, i)
      {
        assert !SeparatorAt(tail, i - 1);
      }
      if |r| < |alt| {
        assert SeparatorAt(tail, |rt|);
      }
    }
  }

  lemma SeparatorShift(alt: string)
    requires alt != []
    ensures forall i :: 1 <= i < |alt| ==> (SeparatorAt(alt, i) <==> SeparatorAt(alt[1..], i - 1))
  {
    forall i | 1 <= i < |alt|
      ensures SeparatorAt(alt, i) <==> SeparatorAt(alt[1..], i - 1)
    {
      if i + 3 <= |alt| {
        assert alt[i..i + 3] == alt[1..][i - 1..i + 2];
      }
    }
  }
}
