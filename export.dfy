/** `clean_txt` (app.py:58-61): makes the summary printable by the PDF report's
    Latin-1 core font. Eight typographic characters get ASCII stand-ins, then every
    character outside ISO/IEC 8859-1 becomes `?` (`encode('latin-1', 'replace')`). */
module Export {
  import opened Seqs

  const Ellipsis: char := '\U{2026}'

  /** The replacement dict of clean_txt, in its insertion (= iteration) order. */
  const Rep: seq<(char, string)> := [
    ('\U{2013}', "-"), ('\U{2014}', "-"),
    ('\U{2018}', "'"), ('\U{2019}', "'"),
    ('\U{201C}', "\""), ('\U{201D}', "\""),
    ('\U{2022}', "*"), (Ellipsis, "...")
  ]

  /** The largest code point ISO/IEC 8859-1 encodes. */
  const Latin1Max := 255

  predicate IsLatin1(s: string) {
    forall i :: 0 <= i < |s| ==> s[i] as int <= Latin1Max
  }

  /** Reference definition: what clean_txt turns one character into. */
  function CleanChar(c: char): (r: string)
    ensures IsLatin1(r)
    ensures |r| == if c == Ellipsis then 3 else 1
  {
    if c == '\U{2013}' || c == '\U{2014}' then "-"
    else if c == '\U{2018}' || c == '\U{2019}' then "'"
    else if c == '\U{201C}' || c == '\U{201D}' then "\""
    else if c == '\U{2022}' then "*"
    else if c == Ellipsis then "..."
    else if c as int <= Latin1Max then [c]
    else "?"
  }

  /** Reference definition: clean_txt character by character. */
  function Cleaned(s: string): (r: string)
    ensures |r| >= |s|
  {
    if s == [] then ""
    else Cleaned(s[..|s| - 1]) + CleanChar(s[|s| - 1])
  }

  /** `s.replace(u, r)` for a one-character pattern `u`. */
  function Replace(s: string, u: char, r: string): (t: string)
    ensures |t| + Count(s, u) == |s| + |r| * Count(s, u)
  {
    if s == [] then ""
    else
      var init, c := s[..|s| - 1], s[|s| - 1];
      var n := Count(init, u);
      assert Count(s, u) == n + (if c == u then 1 else 0);
      assert |r| * (n + 1) == |r| * n + |r|;
      Replace(init, u, r) + (if c == u then r else [c])
  }

  /** One character after the first `k` rules of `Rep` have been applied: either
      untouched or an ASCII stand-in. */
  function Subst(c: char, k: nat): (r: string)
    requires k <= |Rep|
    ensures r == [c] || forall i :: 0 <= i < |r| ==> r[i] as int < 128
  {
    if k == 0 then [c]
    else if Rep[k - 1].0 == c then Rep[k - 1].1
    else Subst(c, k - 1)
  }

  /** The text after the first `k` iterations of clean_txt's replace loop. */
  function SubstAll(s: string, k: nat): string
    requires k <= |Rep|
  {
    if s == [] then ""
    else SubstAll(s[..|s| - 1], k) + Subst(s[|s| - 1], k)
  }

  /** `s.encode('latin-1', 'replace').decode('latin-1')`. */
  function Latin1Replace(s: string): (r: string)
    ensures |r| == |s|
  {
    seq(|s|, i requires 0 <= i < |s| => if s[i] as int <= Latin1Max then s[i] else '?')
  }

  /** clean_txt itself: the replace loop over the dict, then the Latin-1 round trip. */
  method CleanTxt(text: string) returns (r: string)
    ensures r == Cleaned(text)
  {
    var t := text;
    SubstAllNone(text);
    for k := 0 to |Rep|
      invariant t == SubstAll(text, k)
    {
      var (u, s) := Rep[k];
      ReplaceStep(text, k);
      t := Replace(t, u, s);
    }
    r := Latin1Replace(t);
    EncodeAfterSubst(text);
  }

  lemma {:induction false} SubstAllNone(s: string)
    ensures SubstAll(s, 0) == s
  {
    if s != [] {
      SubstAllNone(s[..|s| - 1]);
      assert s == s[..|s| - 1] + [s[|s| - 1]];
    }
  }

  lemma {:induction false} ReplaceConcat(a: string, b: string, u: char, r: string)
    ensures Replace(a + b, u, r) == Replace(a, u, r) + Replace(b, u, r)
  {
    if b == [] {
      assert a + b == a;
    } else {
      assert (a + b)[..|a + b| - 1] == a + b[..|b| - 1];
      ReplaceConcat(a, b[..|b| - 1], u, r);
    }
  }

  lemma ReplaceAbsent(s: string, u: char, r: string)
    requires u !in s
    ensures Replace(s, u, r) == s
  {
    if s != [] {
      assert s == s[..|s| - 1] + [s[|s| - 1]];
      ReplaceAbsent(s[..|s| - 1], u, r);
    }
  }

  /** A character no earlier rule matched is still itself. */
  lemma {:induction false} SubstUnmatched(c: char, k: nat)
    requires k <= |Rep|
    requires forall i :: 0 <= i < k ==> Rep[i].0 != c
    ensures Subst(c, k) == [c]
  {
    if k > 0 {
      SubstUnmatched(c, k - 1);
    }
  }

  /** Rule `k` acts on one character as the first `k + 1` rules do: the stand-ins
      of earlier rules are ASCII, so no later rule rewrites them. */
  lemma SubstCharStep(c: char, k: nat)
    requires k < |Rep|
    ensures Replace(Subst(c, k), Rep[k].0, Rep[k].1) == Subst(c, k + 1)
  {
    var (u, v) := Rep[k];
    if u == c {
      SubstUnmatched(c, k);
      assert Replace([c], u, v) == Replace([], u, v) + v;
    } else {
      var t := Subst(c, k);
      if t == [c] {
        ReplaceAbsent(t, u, v);
      } else {
        assert u !in t;
        ReplaceAbsent(t, u, v);
      }
    }
  }

  /** One iteration of the loop in clean_txt. */
  lemma {:induction false} ReplaceStep(s: string, k: nat)
    requires k < |Rep|
    ensures Replace(SubstAll(s, k), Rep[k].0, Rep[k].1) == SubstAll(s, k + 1)
  {
    if s != [] {
      var init, c := s[..|s| - 1], s[|s| - 1];
      ReplaceStep(init, k);
      ReplaceConcat(SubstAll(init, k), Subst(c, k), Rep[k].0, Rep[k].1);
      SubstCharStep(c, k);
    }
  }

  lemma Latin1ReplaceConcat(a: string, b: string)
    ensures Latin1Replace(a + b) == Latin1Replace(a) + Latin1Replace(b)
  {
  }

  /** A character matched by rule `i` becomes that rule's stand-in; the keys of
      `Rep` are distinct, so no other rule interferes. */
  lemma {:induction false} SubstMatched(c: char, k: nat, i: nat)
    requires i < k <= |Rep|
    requires Rep[i].0 == c
    ensures Subst(c, k) == Rep[i].1
  {
    if k - 1 != i {
      SubstMatched(c, k - 1, i);
    }
  }

  /** On one character, the whole table followed by the Latin-1 round trip is
      the reference. */
  lemma EncodeChar(c: char)
    ensures Latin1Replace(Subst(c, |Rep|)) == CleanChar(c)
  {
    if i :| 0 <= i < |Rep| && Rep[i].0 == c {
      SubstMatched(c, |Rep|, i);
      var t := Rep[i].1;
      assert forall j :: 0 <= j < |t| ==> t[j] as int < 128;
      assert Latin1Replace(t) == t;
    } else {
      assert Rep[0].0 != c && Rep[1].0 != c && Rep[2].0 != c && Rep[3].0 != c;
      assert Rep[4].0 != c && Rep[5].0 != c && Rep[6].0 != c && Rep[7].0 != c;
      SubstUnmatched(c, |Rep|);
      assert Latin1Replace([c])[0] == CleanChar(c)[0];
    }
  }

  /** After the whole table, the Latin-1 round trip yields the reference. */
  lemma {:induction false} EncodeAfterSubst(s: string)
    ensures Latin1Replace(SubstAll(s, |Rep|)) == Cleaned(s)
  {
    if s != [] {
      var init, c := s[..|s| - 1], s[|s| - 1];
      EncodeAfterSubst(init);
      Latin1ReplaceConcat(SubstAll(init, |Rep|), Subst(c, |Rep|));
      EncodeChar(c);
    }
  }

  /** clean_txt works character by character: it commutes with concatenation. */
  lemma {:induction false} CleanedConcat(a: string, b: string)
    ensures Cleaned(a + b) == Cleaned(a) + Cleaned(b)
  {
    if b == [] {
      assert a + b == a;
    } else {
      var init, c := b[..|b| - 1], b[|b| - 1];
      assert (a + b)[..|a + b| - 1] == a + init;
      assert (a + b)[|a + b| - 1] == c;
      calc {
        Cleaned(a + b);
        Cleaned(a + init) + CleanChar(c);
        { CleanedConcat(a, init); }
        Cleaned(a) + Cleaned(init) + CleanChar(c);
        Cleaned(a) + Cleaned(b);
      }
    }
  }

  /** A Latin-1 character is its own image, a mapped character gets its
      stand-in and any other character becomes exactly one `?`. */
  lemma CleanCharCases(c: char)
    ensures c as int <= Latin1Max ==> CleanChar(c) == [c]
    ensures forall k :: 0 <= k < |Rep| && Rep[k].0 == c ==> CleanChar(c) == Rep[k].1
    ensures c as int > Latin1Max && (forall k :: 0 <= k < |Rep| ==> Rep[k].0 != c) ==>
              CleanChar(c) == "?"
  {
    if c as int > Latin1Max && forall k :: 0 <= k < |Rep| ==> Rep[k].0 != c {
      assert Rep[0].0 != c && Rep[1].0 != c && Rep[2].0 != c && Rep[3].0 != c;
      assert Rep[4].0 != c && Rep[5].0 != c && Rep[6].0 != c && Rep[7].0 != c;
    }
  }

  /** Character `i` of the input is cleaned in place: its image (see
      `CleanCharCases`) sits between the images of what precedes and what
      follows it. */
  lemma {:induction false} CleanedAt(s: string, i: nat)
    requires i < |s|
    ensures Cleaned(s) == Cleaned(s[..i]) + CleanChar(s[i]) + Cleaned(s[i + 1..])
  {
    var upto := s[..i] + [s[i]];
    assert upto[..|upto| - 1] == s[..i];
    calc {
      Cleaned(s);
      { assert s == upto + s[i + 1..]; }
      Cleaned(upto + s[i + 1..]);
      { CleanedConcat(upto, s[i + 1..]); }
      Cleaned(upto) + Cleaned(s[i + 1..]);
      Cleaned(s[..i]) + CleanChar(s[i]) + Cleaned(s[i + 1..]);
    }
  }

  /** Without an ellipsis the output has the input's length and is aligned with it
      position by position. */
  lemma {:induction false} CleanedWithoutEllipsis(s: string)
    requires Ellipsis !in s
    ensures |Cleaned(s)| == |s|
    ensures forall i :: 0 <= i < |s| ==> CleanChar(s[i]) == [Cleaned(s)[i]]
  {
    if s != [] {
      var init := s[..|s| - 1];
      assert Ellipsis !in init;
      CleanedWithoutEllipsis(init);
      forall i | 0 <= i < |s|
        ensures CleanChar(s[i]) == [Cleaned(s)[i]]
      {
        if i < |s| - 1 {
          assert s[i] == init[i];
        }
      }
    }
  }

  /** Text that is already Latin-1 is left alone. */
  lemma {:induction false} CleanedFixesLatin1(s: string)
    requires IsLatin1(s)
    ensures Cleaned(s) == s
  {
    if s != [] {
      var init, c := s[..|s| - 1], s[|s| - 1];
      assert IsLatin1(init) by {
        assert forall i :: 0 <= i < |init| ==> init[i] == s[i];
      }
      CleanedFixesLatin1(init);
      CleanCharCases(c);
      assert s == init + [c];
    }
  }

  /** Cleaning twice is cleaning once. */
  lemma CleanedIdempotent(s: string)
    ensures Cleaned(Cleaned(s)) == Cleaned(s)
  {
    CleanedIsLatin1(s);
    CleanedFixesLatin1(Cleaned(s));
  }

  /** Every character clean_txt outputs is Latin-1, and the output grows by two
      characters per ellipsis and by nothing else. */
  lemma {:induction false} CleanedIsLatin1(s: string)
    ensures IsLatin1(Cleaned(s))
    ensures |Cleaned(s)| == |s| + 2 * Count(s, Ellipsis)
  {
    if s != [] {
      var init, c := s[..|s| - 1], s[|s| - 1];
      CleanedIsLatin1(init);
      var p, t := Cleaned(init), CleanChar(c);
      var r := Cleaned(s);
      assert r == p + t;
      forall i | 0 <= i < |r|
        ensures r[i] as int <= Latin1Max
      {
        if i < |p| {
          assert r[i] == p[i];
        } else {
          assert r[i] == t[i - |p|];
        }
      }
    }
  }
}
