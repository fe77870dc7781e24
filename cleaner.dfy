/** special_cleaner: the token clean-up pwordcount applies to a file's
    whitespace-separated tokens before counting them. Each token that is not
    blank loses every special character and is lower-cased; then a removal
    pass deletes the tokens "" and "-" while iterating over the very list it
    deletes from: after each removal the token following the cursor is
    skipped, and list.remove deletes the first equal token, which can be an
    earlier, already skipped one rather than the one under the cursor. */
module Cleaner {

  /** The characters deleted from every token (str.translate with a
      deletion table). */
  const SpecialChars: string := "!@#$%^&*()_+[]{}|;:,.<>?/\\\"~\U{2020}\U{2013}"

  /** The characters str.strip() treats as whitespace. */
  predicate IsSpace(c: char)
  {
    c == ' ' || ('\t' <= c <= '\r') || ('\U{1C}' <= c <= '\U{1F}') ||
    c == '\U{85}' || c == '\U{A0}' || c == '\U{1680}' ||
    ('\U{2000}' <= c <= '\U{200A}') || c == '\U{2028}' || c == '\U{2029}' ||
    c == '\U{202F}' || c == '\U{205F}' || c == '\U{3000}'
  }

  /** word.strip() is empty: the token is dropped by the comprehension. */
  predicate Blank(w: string)
  {
    forall i :: 0 <= i < |w| ==> IsSpace(w[i])
  }

  predicate IsUpper(c: char)
  {
    'A' <= c <= 'Z'
  }

  function LowerChar(c: char): (r: char)
    ensures !IsUpper(r)
    ensures IsUpper(c) ==> r as int == c as int + 32
    ensures !IsUpper(c) ==> r == c
  {
    if IsUpper(c) then (c as int + 32) as char else c
  }

  /** str.lower, on the ASCII letters. */
  function Lower(w: string): (r: string)
    ensures |r| == |w|
    ensures forall i :: 0 <= i < |w| ==> !IsUpper(r[i]) && (IsUpper(w[i]) || r[i] == w[i])
  {
    seq(|w|, i requires 0 <= i < |w| => LowerChar(w[i]))
  }

  /** The token with every special character deleted, the others kept in
      order. */
  function StripSpecial(w: string): (r: string)
    ensures |r| <= |w|
    ensures forall c :: c in r <==> c in w && c !in SpecialChars
  {
    if w == [] then []
    else (if w[0] in SpecialChars then [] else [w[0]]) + StripSpecial(w[1..])
  }

  /** What the comprehension makes of one token: translate, then lower. */
  function Normalize(w: string): (r: string)
    ensures |r| <= |w|
    ensures forall c :: c in r ==> c !in SpecialChars && !IsUpper(c)
  {
    var s := StripSpecial(w);
    NormalizedChars(s);
    Lower(s)
  }

  /** Deleting special characters works character by character: it
      distributes over concatenation, drops a special character and keeps
      any other one. Together these fix which characters are kept, how
      many of each, and in what order. */
  lemma {:induction false} StripSpecialConcat(a: string, b: string)
    ensures StripSpecial(a + b) == StripSpecial(a) + StripSpecial(b)
  {
    if a == [] {
      assert a + b == b;
    } else {
      assert (a + b)[0] == a[0];
      assert (a + b)[1..] == a[1..] + b;
      StripSpecialConcat(a[1..], b);
    }
  }

  lemma StripSpecialChar(c: char)
    ensures StripSpecial([c]) == if c in SpecialChars then [] else [c]
  {
    assert [c][1..] == [];
  }

  lemma LowerConcat(a: string, b: string)
    ensures Lower(a + b) == Lower(a) + Lower(b)
  {
  }

  /** translate-then-lower, character by character: it distributes over
      concatenation, drops a special character and lower-cases any other. */
  lemma NormalizeConcat(a: string, b: string)
    ensures Normalize(a + b) == Normalize(a) + Normalize(b)
  {
    StripSpecialConcat(a, b);
    LowerConcat(StripSpecial(a), StripSpecial(b));
  }

  lemma NormalizeChar(c: char)
    ensures Normalize([c]) == if c in SpecialChars then [] else [LowerChar(c)]
  {
    StripSpecialChar(c);
  }

  /** No lower-case ASCII letter is a special character. */
  lemma LowerLettersNotSpecial()
    ensures forall i :: 0 <= i < |SpecialChars| ==> !('a' <= SpecialChars[i] <= 'z')
  {
  }

  /** A normalized token holds no special character and no upper-case
      letter, is no longer than the token it came from, and normalizing it
      again changes nothing. */
  lemma NormalizeSpec(w: string)
    ensures |Normalize(w)| <= |w|
    ensures forall c :: c in Normalize(w) ==> c !in SpecialChars && !IsUpper(c)
    ensures Normalize(Normalize(w)) == Normalize(w)
  {
    var n := Normalize(w);
    StripSpecialUnchanged(n);
    LowerUnchanged(n);
  }

  /** Lower-casing a token free of special characters leaves it free of
      them, and free of upper-case letters. */
  lemma NormalizedChars(s: string)
    requires forall c :: c in s ==> c !in SpecialChars
    ensures forall c :: c in Lower(s) ==> c !in SpecialChars && !IsUpper(c)
  {
    var n := Lower(s);
    LowerLettersNotSpecial();
    forall i | 0 <= i < |n|
      ensures n[i] !in SpecialChars && !IsUpper(n[i])
    {
      assert s[i] in s;
      assert n[i] == LowerChar(s[i]);
    }
  }

  lemma {:induction false} StripSpecialUnchanged(w: string)
    requires forall c :: c in w ==> c !in SpecialChars
    ensures StripSpecial(w) == w
  {
    if w != [] {
      assert w[0] in w;
      assert forall c :: c in w[1..] ==> c in w;
      StripSpecialUnchanged(w[1..]);
      assert w == [w[0]] + w[1..];
    }
  }

  lemma LowerUnchanged(w: string)
    requires forall c :: c in w ==> !IsUpper(c)
    ensures Lower(w) == w
  {
    forall i | 0 <= i < |w|
      ensures Lower(w)[i] == w[i]
    {
      assert w[i] in w;
    }
  }

  /** The list comprehension of special_cleaner: every non-blank token, in
      order, normalized. */
  function Prepare(unclean: seq<string>): (r: seq<string>)
    ensures |r| <= |unclean|
    ensures forall i :: 0 <= i < |r| ==> forall c :: c in r[i] ==> c !in SpecialChars && !IsUpper(c)
  {
    if unclean == [] then []
    else (if Blank(unclean[0]) then [] else [Normalize(unclean[0])]) + Prepare(unclean[1..])
  }

  /** The comprehension works token by token: it distributes over
      concatenation. */
  lemma {:induction false} PrepareConcat(a: seq<string>, b: seq<string>)
    ensures Prepare(a + b) == Prepare(a) + Prepare(b)
  {
    if a == [] {
      assert a + b == b;
    } else {
      var head := if Blank(a[0]) then [] else [Normalize(a[0])];
      assert (a + b)[0] == a[0];
      assert (a + b)[1..] == a[1..] + b;
      assert Prepare(a + b) == head + Prepare(a[1..] + b);
      PrepareConcat(a[1..], b);
    }
  }

  /** Without blank tokens the comprehension is a plain map: the i-th
      result is the i-th token normalized. */
  lemma {:induction false} PrepareMaps(unclean: seq<string>)
    requires forall i :: 0 <= i < |unclean| ==> !Blank(unclean[i])
    ensures |Prepare(unclean)| == |unclean|
    ensures forall i :: 0 <= i < |unclean| ==> Prepare(unclean)[i] == Normalize(unclean[i])
  {
    if unclean != [] {
      PrepareMaps(unclean[1..]);
    }
  }

  /** Every token the comprehension yields is normalized and comes from a
      non-blank input token. */
  lemma {:induction false} PrepareOrigins(unclean: seq<string>)
    ensures forall w :: w in Prepare(unclean) ==>
      exists u :: u in unclean && !Blank(u) && w == Normalize(u)
  {
    if unclean != [] {
      PrepareOrigins(unclean[1..]);
      forall w | w in Prepare(unclean)
        ensures exists u :: u in unclean && !Blank(u) && w == Normalize(u)
      {
        if w in Prepare(unclean[1..]) {
          var u :| u in unclean[1..] && !Blank(u) && w == Normalize(u);
          assert u in unclean;
        } else {
          assert unclean[0] in unclean;
        }
      }
    }
  }

  // ---------------------------------------------------------------------
  // The removal pass
  // ---------------------------------------------------------------------

  /** The tokens the removal pass is meant to delete. */
  predicate Junk(w: string)
  {
    |w| == 0 || (|w| == 1 && w[0] == '-')
  }

  /** list.remove(x): delete the first element equal to x. */
  function RemoveFirst(s: seq<string>, x: string): (r: seq<string>)
    requires x in s
    ensures |r| == |s| - 1
    ensures multiset(r) == multiset(s) - multiset{x}
  {
    assert s == [s[0]] + s[1..];
    if s[0] == x then s[1..] else [s[0]] + RemoveFirst(s[1..], x)
  }

  /** The removal pass of special_cleaner, from list position i on: each
      token equal to "" or "-" is removed with list.remove while the list is
      being iterated. Python's list iterator reads the element at its index
      and advances by one, while a removal shifts the rest of the list down
      by one. */
  function Sweep(s: seq<string>, i: nat): (r: seq<string>)
    ensures |r| <= |s|
    ensures multiset(r) <= multiset(s)
    decreases |s| - i
  {
    if i >= |s| then s
    else if Junk(s[i]) then Sweep(RemoveFirst(s, s[i]), i + 1)
    else Sweep(s, i + 1)
  }

  /** The whole of special_cleaner. */
  function Cleaned(unclean: seq<string>): (r: seq<string>)
    ensures |r| <= |unclean|
    ensures multiset(r) <= multiset(Prepare(unclean))
    ensures Kept(r) == Kept(Prepare(unclean))
  {
    SweepKeeps(Prepare(unclean), 0);
    Sweep(Prepare(unclean), 0)
  }

  /** special_cleaner, with the removal loop as the source runs it. */
  method SpecialCleaner(unclean: seq<string>) returns (clean: seq<string>)
    ensures clean == Cleaned(unclean)
    ensures Kept(clean) == Kept(Prepare(unclean))
    ensures multiset(clean) <= multiset(Prepare(unclean))
  {
    clean := Prepare(unclean);
    var i := 0;
    while i < |clean|
      invariant Sweep(clean, i) == Cleaned(unclean)
      decreases |clean| - i
    {
      var word := clean[i];
      SweepStep(clean, i);
      i := i + 1;
      if word == "" || word == "-" {
        clean := RemoveFirst(clean, word);
      }
    }
    assert clean == Cleaned(unclean);
  }

  /** One step of the removal pass. */
  lemma SweepStep(s: seq<string>, i: nat)
    requires i < |s|
    ensures Junk(s[i]) <==> s[i] == "" || s[i] == "-"
    ensures Junk(s[i]) ==> Sweep(s, i) == Sweep(RemoveFirst(s, s[i]), i + 1)
    ensures !Junk(s[i]) ==> Sweep(s, i) == Sweep(s, i + 1)
  {
  }

  /** The non-junk tokens of s, in order. */
  function Kept(s: seq<string>): seq<string>
  {
    if s == [] then [] else (if Junk(s[0]) then [] else [s[0]]) + Kept(s[1..])
  }

  lemma {:induction false} KeptConcat(a: seq<string>, b: seq<string>)
    ensures Kept(a + b) == Kept(a) + Kept(b)
  {
    if a != [] {
      assert (a + b)[1..] == a[1..] + b;
      KeptConcat(a[1..], b);
    } else {
      assert a + b == b;
    }
  }

  lemma {:induction false} KeptRemoveJunk(s: seq<string>, x: string)
    requires x in s && Junk(x)
    ensures Kept(RemoveFirst(s, x)) == Kept(s)
  {
    if s[0] != x {
      var rest := RemoveFirst(s[1..], x);
      KeptRemoveJunk(s[1..], x);
      var r := [s[0]] + rest;
      assert r[0] == s[0] && r[1..] == rest;
    }
  }

  /** The removal pass only ever deletes "" and "-": every other token
      survives, in order, and nothing is added. */
  lemma {:induction false} SweepKeeps(s: seq<string>, i: nat)
    ensures Kept(Sweep(s, i)) == Kept(s)
    ensures multiset(Sweep(s, i)) <= multiset(s)
    decreases |s| - i
  {
    if i < |s| {
      if Junk(s[i]) {
        SweepKeeps(RemoveFirst(s, s[i]), i + 1);
        KeptRemoveJunk(s, s[i]);
      } else {
        SweepKeeps(s, i + 1);
      }
    }
  }

  predicate NoJunk(s: seq<string>)
  {
    forall k :: 0 <= k < |s| ==> !Junk(s[k])
  }

  predicate NoAdjacentJunk(s: seq<string>)
  {
    forall k :: 0 <= k < |s| - 1 ==> !(Junk(s[k]) && Junk(s[k + 1]))
  }

  /** remove(x) passes over a prefix that does not hold x. */
  lemma {:induction false} RemoveFirstSkips(a: seq<string>, b: seq<string>, x: string)
    requires x !in a && x in b
    ensures RemoveFirst(a + b, x) == a + RemoveFirst(b, x)
  {
    if a != [] {
      var ab := a + b;
      var tail := a[1..];
      assert a[0] in a;
      assert ab[0] == a[0] != x;
      assert ab[1..] == tail + b;
      RemoveFirstSkips(tail, b, x);
      assert a == [a[0]] + tail;
    } else {
      assert a + b == b;
    }
  }

  /** When the tokens before position i hold no junk, the junk token at i
      is the first of its kind, so list.remove deletes exactly that one. */
  lemma RemoveAtCursor(s: seq<string>, i: nat)
    requires i < |s| && Junk(s[i]) && NoJunk(s[..i])
    ensures RemoveFirst(s, s[i]) == s[..i] + s[i + 1..]
  {
    var x := s[i];
    assert x !in s[..i];
    assert s == s[..i] + s[i..];
    assert s[i..][0] == x && s[i..][1..] == s[i + 1..];
    RemoveFirstSkips(s[..i], s[i..], x);
  }

  lemma JunkStepInvariant(s: seq<string>, i: nat)
    requires i + 1 < |s| && Junk(s[i]) && NoJunk(s[..i]) && NoAdjacentJunk(s[i..])
    ensures var s' := s[..i] + s[i + 1..];
            NoJunk(s'[..i + 1]) && NoAdjacentJunk(s'[i + 1..])
  {
    var s' := s[..i] + s[i + 1..];
    assert s[i..][0] == s[i] && s[i..][1] == s[i + 1];
    assert s'[..i + 1] == s[..i] + [s[i + 1]];
    assert s'[i + 1..] == s[i..][2..];
  }

  lemma KeepStepInvariant(s: seq<string>, i: nat)
    requires i < |s| && !Junk(s[i]) && NoJunk(s[..i]) && NoAdjacentJunk(s[i..])
    ensures NoJunk(s[..i + 1]) && NoAdjacentJunk(s[i + 1..])
  {
    assert s[..i + 1] == s[..i] + [s[i]];
    assert s[i + 1..] == s[i..][1..];
  }

  /** When no two junk tokens are adjacent, nothing is skipped: each junk
      token is the first of its kind still in the list when the loop reaches
      it, and the pass leaves no junk behind. */
  lemma {:induction false} SweepCleansSeparatedJunk(s: seq<string>, i: nat)
    requires i <= |s|
    requires NoJunk(s[..i]) && NoAdjacentJunk(s[i..])
    ensures NoJunk(Sweep(s, i))
    decreases |s| - i
  {
    if i == |s| {
      assert s[..i] == s;
    } else if Junk(s[i]) {
      RemoveAtCursor(s, i);
      var s' := s[..i] + s[i + 1..];
      if i + 1 < |s| {
        JunkStepInvariant(s, i);
        SweepCleansSeparatedJunk(s', i + 1);
      } else {
        assert s' == s[..i];
      }
    } else {
      KeepStepInvariant(s, i);
      SweepCleansSeparatedJunk(s, i + 1);
    }
  }

  /** The cleaner is junk-free whenever the prepared tokens hold no two
      adjacent junk tokens. */
  lemma CleanedJunkFree(unclean: seq<string>)
    requires NoAdjacentJunk(Prepare(unclean))
    ensures NoJunk(Cleaned(unclean))
  {
    var p := Prepare(unclean);
    assert p[0..] == p;
    SweepCleansSeparatedJunk(p, 0);
  }

  /** The pass skips the token after each removal: two punctuation-only
      tokens both become "", and only the first of them is removed. */
  lemma AdjacentJunkSurvives()
    ensures Cleaned(["!", "?"]) == [""]
  {
    PreparePunctuation();
    SweepTwoEmpty();
  }

  /** list.remove deletes the first equal token, which need not be the one
      under the cursor. In ["", "", "x", ""] the first "" is removed and the
      second, now at index 0, is skipped; the cursor then reads "x" and the
      last "", and removing "" deletes the skipped one at index 0, so "x"
      and the last "" remain. */
  lemma RemoveTakesEarlierDuplicate()
    ensures Sweep(["", "", "x", ""], 0) == ["x", ""]
  {
    var s1 := ["", "x", ""];
    var s2 := ["x", ""];
    RemoveHead(["", "", "x", ""]);
    RemoveHead(s1);
    assert Sweep(s1, 2) == s2 by {
      assert s1[2] == "";
      assert Sweep(s2, 3) == s2;
    }
    assert s1[1] == "x" && !Junk(s1[1]);
  }

  /** Removing "" from a list that starts with "" drops its head. */
  lemma RemoveHead(s: seq<string>)
    requires |s| > 0 && s[0] == ""
    ensures RemoveFirst(s, "") == s[1..]
  {
  }

  lemma PunctuationVanishes(w: string)
    requires |w| == 1 && w[0] in SpecialChars && !IsSpace(w[0])
    ensures !Blank(w) && Normalize(w) == ""
  {
    assert w[1..] == "";
  }

  lemma PreparePunctuation()
    ensures Prepare(["!", "?"]) == ["", ""]
  {
    assert SpecialChars[0] == '!' && SpecialChars[23] == '?';
    PunctuationVanishes("!");
    PunctuationVanishes("?");
    var ws := ["!", "?"];
    assert ws[1..] == ["?"] && ws[1..][1..] == [];
    assert Prepare(ws[1..][1..]) == [];
    assert Prepare(ws[1..]) == [""];
  }

  lemma SweepTwoEmpty()
    ensures Sweep(["", ""], 0) == [""]
  {
    var s := ["", ""];
    assert RemoveFirst(s, "") == [""];
    assert Sweep([""], 1) == [""];
  }
}
