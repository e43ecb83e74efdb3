/** What _sanitize_k8s_name (compute/openshift.py) makes of a name: its words, hyphenated; and what
    the decimal numbers in names stand for. */
module LabelWords {
  import opened K8sNames

  predicate WordChar(c: char) { 'a' <= c <= 'z' || '0' <= c <= '9' }

  predicate EndsInWord(s: string) { s != "" && WordChar(s[|s| - 1]) }

  /** The maximal runs of lower-case letters and digits. */
  function Words(s: string): (words: seq<string>)
    ensures EndsInWord(s) ==> words != []
  {
    if s == "" then []
    else
      var n := |s| - 1;
      var before := Words(s[..n]);
      if !WordChar(s[n]) then before
      else if EndsInWord(s[..n]) then before[..|before| - 1] + [before[|before| - 1] + [s[n]]]
      else before + [[s[n]]]
  }

  function Hyphenated(words: seq<string>): string {
    if words == [] then ""
    else if |words| == 1 then words[0]
    else Hyphenated(words[..|words| - 1]) + "-" + words[|words| - 1]
  }

  lemma {:induction false} CollapseMore(a: string, c: char)
    ensures Collapse(a + [c]) ==
            if c == '-' && a != "" && a[|a| - 1] == '-' then Collapse(a) else Collapse(a) + [c]
  {
    if a == "" {
      assert a + [c] == [c] && [c][1..] == "";
    } else {
      assert (a + [c])[1..] == a[1..] + [c];
      CollapseMore(a[1..], c);
      if |a| == 1 { assert a + [c] == [a[0], c]; }
    }
  }

  lemma {:induction false} LStripMore(x: string, c: char)
    ensures LStrip(x + [c]) == if c == '-' && LStrip(x) == "" then "" else LStrip(x) + [c]
  {
    if x == "" {
      assert x + [c] == [c] && [c][1..] == "";
    } else if x[0] == '-' {
      assert (x + [c])[1..] == x[1..] + [c];
      LStripMore(x[1..], c);
    }
  }

  lemma RewriteMore(s: string, c: char)
    ensures Rewrite(s + [c]) == Rewrite(s) + [if LabelChar(c) then c else '-']
  {
  }

  lemma {:induction false} EndOfHyphenated(words: seq<string>, c: char)
    requires words != []
    ensures Hyphenated(words[..|words| - 1] + [words[|words| - 1] + [c]]) == Hyphenated(words) + [c]
  {
    var init, last := words[..|words| - 1], words[|words| - 1];
    var more := init + [last + [c]];
    assert more[..|more| - 1] == init && more[|more| - 1] == last + [c];
    if init != [] { assert Hyphenated(init) + "-" + (last + [c]) == Hyphenated(init) + "-" + last + [c]; }
  }

  /** A separator at the end is still a hyphen then. */
  function Tail(s: string): string { if s != "" && !EndsInWord(s) && Words(s) != [] then "-" else "" }

  /** What the name has come to so far. */
  function SoFar(s: string): string { Hyphenated(Words(s)) + Tail(s) }

  lemma WordsMore(a: string, c: char)
    ensures var s, words := a + [c], Words(a);
            && EndsInWord(s) == WordChar(c)
            && Words(s) == if !WordChar(c) then words
                           else if EndsInWord(a) then words[..|words| - 1] + [words[|words| - 1] + [c]]
                           else words + [[c]]
  {
    var s := a + [c];
    assert s[..|s| - 1] == a && s[|s| - 1] == c;
  }

  lemma InWord(a: string, c: char)
    requires WordChar(c) && EndsInWord(a)
    ensures SoFar(a + [c]) == SoFar(a) + [c]
  {
    WordsMore(a, c);
    EndOfHyphenated(Words(a), c);
  }

  lemma NewWord(a: string, c: char)
    requires WordChar(c) && !EndsInWord(a)
    ensures SoFar(a + [c]) == SoFar(a) + [c]
  {
    WordsMore(a, c);
    var words := Words(a);
    assert (words + [[c]])[..|words|] == words && (words + [[c]])[|words|] == [c];
    if words == [] { assert a == "" || !EndsInWord(a); }
  }

  lemma Gap(a: string, c: char)
    requires !WordChar(c)
    ensures SoFar(a + [c]) == if EndsInWord(a) then SoFar(a) + "-" else SoFar(a)
  {
    WordsMore(a, c);
  }

  lemma SoFarEnds(a: string)
    requires Words(a) != [] ==> EndsInWord(Hyphenated(Words(a)))
    ensures SoFar(a) == "" <==> Words(a) == []
    ensures EndsInWord(a) ==> SoFar(a) != ""
  {
  }

  lemma {:induction false} HyphenatedWords(s: string)
    ensures LStrip(Collapse(Rewrite(s))) == SoFar(s)
    ensures Words(s) != [] ==> EndsInWord(Hyphenated(Words(s)))
  {
    if s != "" {
      var n := |s| - 1;
      var a, c := s[..n], s[n];
      assert s == a + [c];
      HyphenatedWords(a);
      SoFarEnds(a);
      OneMore(a, c);
      StillEnds(a, c);
    }
  }

  lemma StillEnds(a: string, c: char)
    requires Words(a) != [] ==> EndsInWord(Hyphenated(Words(a)))
    ensures Words(a + [c]) != [] ==> EndsInWord(Hyphenated(Words(a + [c])))
  {
    WordsMore(a, c);
    var words := Words(a);
    if WordChar(c) && EndsInWord(a) {
      EndOfHyphenated(words, c);
    } else if WordChar(c) {
      assert (words + [[c]])[..|words|] == words && (words + [[c]])[|words|] == [c];
    }
  }

  lemma OneMore(a: string, c: char)
    requires LStrip(Collapse(Rewrite(a))) == SoFar(a)
    requires (SoFar(a) == "" <==> Words(a) == []) && (EndsInWord(a) ==> SoFar(a) != "")
    ensures LStrip(Collapse(Rewrite(a + [c]))) == SoFar(a + [c])
  {
    var d := if LabelChar(c) then c else '-';
    RewriteMore(a, c);
    CollapseMore(Rewrite(a), d);
    LStripMore(Collapse(Rewrite(a)), d);
    if WordChar(c) { MoreOfWord(a, c); } else { MoreOfGap(a, c); }
  }

  lemma MoreOfWord(a: string, c: char)
    requires WordChar(c)
    ensures SoFar(a + [c]) == SoFar(a) + [c]
  {
    if EndsInWord(a) { InWord(a, c); } else { NewWord(a, c); }
  }

  lemma MoreOfGap(a: string, c: char)
    requires !WordChar(c)
    ensures SoFar(a + [c]) == if EndsInWord(a) then SoFar(a) + "-" else SoFar(a)
    ensures a != "" ==> (EndsInWord(a) <==> Rewrite(a)[|a| - 1] != '-')
  {
    Gap(a, c);
  }

  /** The words of the lower-cased name, hyphenated, without what is behind 63 characters and a
      hyphen that comes to stand at the end; "ceph-vm" for a name without any word. */
  lemma SanitizeIs(lower: string -> string, name: string)
    ensures var all := Hyphenated(Words(lower(name)));
            Sanitize(lower, name) ==
            if Words(lower(name)) == [] then "ceph-vm"
            else if |all| <= 63 then all
            else if all[62] == '-' then all[..62]
            else all[..63]
  {
    var s := lower(name);
    var all := Hyphenated(Words(s));
    HyphenatedWords(s);
    SoFarEnds(s);
    StripTail(all, Tail(s));
    if Words(s) != [] && |all| > 63 { CutStripped(lower, name, all); }
  }

  lemma StripTail(s: string, tail: string)
    requires (tail == "" || tail == "-") && (s == "" || s[|s| - 1] != '-')
    ensures RStrip(s + tail) == s
  {
    var r := RStrip(s + tail);
    if |r| < |s| { assert false; }
  }

  lemma CutStripped(lower: string -> string, name: string, all: string)
    requires RStrip(LStrip(Collapse(Rewrite(lower(name))))) == all && |all| > 63 && all[0] != '-'
    ensures Sanitize(lower, name) == if all[62] == '-' then all[..62] else all[..63]
  {
    var a := LStrip(Collapse(Rewrite(lower(name))));
    assert NoDoubleHyphen(a) && all <= a;
    assert !(all[61] == '-' && all[61 + 1] == '-');
    var cut := all[..63];
    assert cut[61] != '-' || cut[62] != '-';
    assert |RStrip(cut)| >= 62;
  }

  // ----- decimal numbers ---------------------------------------------------

  predicate Digits(s: string) { forall i :: 0 <= i < |s| ==> '0' <= s[i] <= '9' }

  function ValueOf(digits: string): int
    requires Digits(digits)
  {
    if digits == "" then 0
    else 10 * ValueOf(digits[..|digits| - 1]) + (digits[|digits| - 1] as int - '0' as int)
  }

  /** The digits of a number stand for it, and do not begin with a zero unless it is zero. */
  lemma {:induction false} DecimalIs(n: nat)
    ensures Digits(Decimal(n)) && ValueOf(Decimal(n)) == n && (n > 0 ==> Decimal(n)[0] != '0')
  {
    assert Digit(n % 10) as int == '0' as int + n % 10;
    if n >= 10 {
      DecimalIs(n / 10);
      assert Decimal(n)[..|Decimal(n)| - 1] == Decimal(n / 10);
    } else {
      assert Decimal(n)[..0] == "";
    }
  }
}
