/**
  emails.go: the plausibility filter for e-mail addresses and the
  order-preserving, first-seen deduplication of the regular expression's
  matches. The regular expression engine itself is not modelled: the
  matches arrive as a sequence.
*/
module Emails {
  import opened GoStrings

  /**
    `isValidEmail`: split on ".", require at least two pieces, a last piece of
    at least two bytes, and a last piece that `strconv.Atoi` does not accept.
  */
  predicate IsValidEmail(email: string)
  {
    var split := Split(email, '.');
    && |split| >= 2
    && var ending := split[|split| - 1];
       && Utf8Len(ending) >= 2
       && !AtoiAccepts(ending)
  }

  /** An address without a dot is rejected. */
  lemma NoDotRejected(email: string)
    requires '.' !in email
    ensures !IsValidEmail(email)
  {
  }

  /**
    With a dot, the verdict depends only on what follows the last dot: it must
    be at least two bytes long and not an `int` numeral.
  */
  lemma ValidEmailByEnding(prefix: string, ending: string)
    requires '.' !in ending
    ensures IsValidEmail(prefix + "." + ending) <==> Utf8Len(ending) >= 2 && !AtoiAccepts(ending)
  {
    SplitLastPiece(prefix, '.', ending);
  }

  /** A one-byte ending is rejected ("a@b.c"). */
  lemma ShortEndingRejected(prefix: string, ending: string)
    requires '.' !in ending && Utf8Len(ending) < 2
    ensures !IsValidEmail(prefix + "." + ending)
  {
    ValidEmailByEnding(prefix, ending);
  }

  /** An ending `strconv.Atoi` accepts is rejected ("user@host.12"). */
  lemma NumericEndingRejected(prefix: string, ending: string)
    requires '.' !in ending && AtoiAccepts(ending)
    ensures !IsValidEmail(prefix + "." + ending)
  {
    ValidEmailByEnding(prefix, ending);
  }

  /** "user@host.12" is rejected: its ending is a number. */
  lemma NumericExample()
    ensures !IsValidEmail("user@host.12")
  {
    assert "user@host.12" == "user@host" + "." + "12";
    assert DigitsValue("12") == 12 by {
      assert "12"[..1] == "1";
    }
    NumericEndingRejected("user@host", "12");
  }

  /** "a@b.co" is accepted. */
  lemma PlainExample()
    ensures IsValidEmail("a@b.co")
  {
    var ending := "co";
    assert Utf8Len(ending) == 2 by {
      assert ending[1..] == "o" && "o"[1..] == [];
    }
    assert !AtoiAccepts(ending) by {
      assert SignLength(ending) == 0 && !IsDigit(ending[0]);
    }
    ValidEmailByEnding("a@b", ending);
    assert "a@b" + "." + ending == "a@b.co";
  }

  /** An all-digit ending too large for a 64-bit `int` makes `Atoi` fail, so the address is accepted. */
  lemma OutOfRangeExample()
    ensures IsValidEmail("a@b.99999999999999999999")
  {
    var big := "99999999999999999999";
    assert "a@b.99999999999999999999" == "a@b" + "." + big;
    NinesOutOfRange(big);
    ValidEmailByEnding("a@b", big);
  }

  /** Twenty nines exceed the largest `int`. */
  lemma NinesOutOfRange(s: string)
    requires |s| == 20 && forall i :: 0 <= i < |s| ==> s[i] == '9'
    ensures !AtoiAccepts(s)
  {
    AllNinesValue(s);
    assert SignLength(s) == 0 && s[0..] == s;
    Pow10Add(10, 10);
    Pow10Add(5, 5);
    assert Pow10(5) == 100000;
  }

  function Pow10(n: nat): nat
  {
    if n == 0 then 1 else 10 * Pow10(n - 1)
  }

  lemma {:induction false} Pow10Add(a: nat, b: nat)
    ensures Pow10(a + b) == Pow10(a) * Pow10(b)
  {
    if a > 0 {
      Pow10Add(a - 1, b);
    }
  }

  /** A string of `n` nines denotes 10^n - 1. */
  lemma {:induction false} AllNinesValue(s: string)
    requires forall i :: 0 <= i < |s| ==> s[i] == '9'
    ensures AllDigits(s) && DigitsValue(s) == Pow10(|s|) - 1
  {
    if s != [] {
      AllNinesValue(s[..|s| - 1]);
    }
  }

  // ------------------------------------------------------------ parseEmails

  /** The matches that pass `IsValidEmail`, in their original order. */
  function ValidEmails(matches: seq<string>): (r: seq<string>)
    ensures |r| <= |matches|
  {
    if matches == [] then []
    else
      var m := matches[|matches| - 1];
      var r := ValidEmails(matches[..|matches| - 1]);
      if IsValidEmail(m) then r + [m] else r
  }

  /** An entry survives the filter exactly when it is one of the matches and valid. */
  lemma {:induction false} ValidEmailsMember(matches: seq<string>, e: string)
    ensures e in ValidEmails(matches) <==> e in matches && IsValidEmail(e)
  {
    if matches != [] {
      var p := matches[..|matches| - 1];
      ValidEmailsMember(p, e);
      assert matches == p + [matches[|matches| - 1]];
    }
  }

  /** Keep the first occurrence of each string, scanning left to right. */
  function FirstOccurrences(xs: seq<string>): (r: seq<string>)
    ensures |r| <= |xs|
    ensures forall x :: x in r <==> x in xs
    ensures NoDuplicates(r)
  {
    if xs == [] then []
    else
      var x := xs[|xs| - 1];
      var r := FirstOccurrences(xs[..|xs| - 1]);
      if x in r then r else r + [x]
  }

  /**
    `parseEmails` over the regular expression's matches: the valid matches,
    each once, in the order in which they first occur.
  */
  method ParseEmails(matches: seq<string>) returns (scrapedEmails: seq<string>)
    ensures scrapedEmails == FirstOccurrences(ValidEmails(matches))
  {
    scrapedEmails := [];
    for i := 0 to |matches|
      invariant scrapedEmails == FirstOccurrences(ValidEmails(matches[..i]))
    {
      assert matches[..i + 1][..i] == matches[..i];
      var email := matches[i];
      if !IsValidEmail(email) {
        continue;
      }

      var found := false;
      for j := 0 to |scrapedEmails|
        invariant !found && email !in scrapedEmails[..j]
      {
        if scrapedEmails[j] == email {
          found := true;
          break;
        }
      }
      assert found <==> email in scrapedEmails;

      if found {
        continue;
      }

      scrapedEmails := scrapedEmails + [email];
    }
    assert matches[..|matches|] == matches;
  }

  // --------------------------------------------------- first-occurrence order

  /** Position of the first occurrence of `x` in `xs`. */
  function FirstIndex(xs: seq<string>, x: string): (i: nat)
    requires x in xs
    ensures i < |xs| && xs[i] == x && x !in xs[..i]
  {
    if xs[0] == x then 0
    else
      var i := 1 + FirstIndex(xs[1..], x);
      assert xs[..i] == [xs[0]] + xs[1..][..i - 1];
      i
  }

  /** The first occurrence of `x` is the one index where `x` sits with none before it. */
  lemma FirstIndexUnique(xs: seq<string>, x: string, i: nat)
    requires i < |xs| && xs[i] == x && x !in xs[..i]
    ensures FirstIndex(xs, x) == i
  {
  }

  /** Appending does not move the first occurrence of something already present. */
  lemma FirstIndexPrefix(p: seq<string>, extra: seq<string>, x: string)
    requires x in p
    ensures FirstIndex(p + extra, x) == FirstIndex(p, x)
  {
    var i := FirstIndex(p, x);
    assert (p + extra)[..i] == p[..i];
    FirstIndexUnique(p + extra, x, i);
  }

  /** `FirstOccurrences` lists its elements in the order of their first occurrence. */
  lemma {:induction false} FirstOccurrencesOrdered(xs: seq<string>)
    ensures forall i, j :: 0 <= i < j < |FirstOccurrences(xs)| ==>
              FirstIndex(xs, FirstOccurrences(xs)[i]) < FirstIndex(xs, FirstOccurrences(xs)[j])
  {
    if xs != [] {
      var p, x := xs[..|xs| - 1], xs[|xs| - 1];
      assert xs == p + [x];
      var rp := FirstOccurrences(p);
      FirstOccurrencesOrdered(p);
      forall y | y in p
        ensures FirstIndex(xs, y) == FirstIndex(p, y)
      {
        FirstIndexPrefix(p, [x], y);
      }
      var r := FirstOccurrences(xs);
      assert r == if x in rp then rp else rp + [x];
      if x !in rp {
        assert xs[..|p|] == p;
        FirstIndexUnique(xs, x, |p|);
      }
      forall i, j | 0 <= i < j < |r|
        ensures FirstIndex(xs, r[i]) < FirstIndex(xs, r[j])
      {
        assert r[i] == rp[i] && rp[i] in rp;
        assert FirstIndex(xs, r[i]) == FirstIndex(p, r[i]) < |p|;
        if j < |rp| {
          assert r[j] == rp[j] && rp[j] in rp;
          assert FirstIndex(xs, r[j]) == FirstIndex(p, r[j]);
          assert FirstIndex(p, rp[i]) < FirstIndex(p, rp[j]);
        } else {
          assert r[j] == x;
          assert x !in rp;
          assert FirstIndex(xs, x) == |p|;
        }
      }
    }
  }

  /**
    Filtering keeps the relative order of first occurrences: among valid
    addresses, whichever first occurs earlier in the matches also first occurs
    earlier among the valid matches.
  */
  lemma {:induction false} ValidEmailsKeepOrder(matches: seq<string>, a: string, b: string)
    requires a in matches && b in matches && IsValidEmail(a) && IsValidEmail(b)
    ensures var v := ValidEmails(matches);
            && a in v && b in v
            && (FirstIndex(v, a) < FirstIndex(v, b) <==> FirstIndex(matches, a) < FirstIndex(matches, b))
  {
    var p, m := matches[..|matches| - 1], matches[|matches| - 1];
    assert matches == p + [m];
    var vp := ValidEmails(p);
    var v := ValidEmails(matches);
    ValidEmailsMember(matches, a);
    ValidEmailsMember(matches, b);
    ValidEmailsMember(p, a);
    ValidEmailsMember(p, b);
    if a in p && b in p {
      ValidEmailsKeepOrder(p, a, b);
      FirstIndexPrefix(p, [m], a);
      FirstIndexPrefix(p, [m], b);
      if IsValidEmail(m) {
        assert v == vp + [m];
        FirstIndexPrefix(vp, [m], a);
        FirstIndexPrefix(vp, [m], b);
      }
    } else {
      assert IsValidEmail(m) && v == vp + [m];
      assert matches[..|p|] == p && v[..|vp|] == vp;
      if a in p {
        FirstIndexUnique(matches, b, |p|);
        FirstIndexUnique(v, b, |vp|);
      } else if b in p {
        FirstIndexUnique(matches, a, |p|);
        FirstIndexUnique(v, a, |vp|);
      }
    }
  }

  /** An address is in the output of `parseEmails` exactly when it is a valid match. */
  lemma ParseEmailsMember(matches: seq<string>, e: string)
    ensures e in FirstOccurrences(ValidEmails(matches)) <==> e in matches && IsValidEmail(e)
  {
    ValidEmailsMember(matches, e);
  }

  /**
    The output of `parseEmails` lists the addresses in the order in which they
    first occur among the matches.
  */
  lemma ParseEmailsOrdered(matches: seq<string>)
    ensures forall i, j :: 0 <= i < j < |FirstOccurrences(ValidEmails(matches))| ==>
              var r := FirstOccurrences(ValidEmails(matches));
              r[i] in matches && r[j] in matches && FirstIndex(matches, r[i]) < FirstIndex(matches, r[j])
  {
    var v := ValidEmails(matches);
    var r := FirstOccurrences(v);
    FirstOccurrencesOrdered(v);
    forall i, j | 0 <= i < j < |r|
      ensures r[i] in matches && r[j] in matches && FirstIndex(matches, r[i]) < FirstIndex(matches, r[j])
    {
      assert r[i] in r && r[j] in r;
      ValidEmailsMember(matches, r[i]);
      ValidEmailsMember(matches, r[j]);
      ValidEmailsKeepOrder(matches, r[i], r[j]);
    }
  }

  /** A list of valid addresses is kept as it is. */
  lemma {:induction false} ValidEmailsOfValid(xs: seq<string>)
    requires forall x :: x in xs ==> IsValidEmail(x)
    ensures ValidEmails(xs) == xs
  {
    if xs != [] {
      ValidEmailsOfValid(xs[..|xs| - 1]);
    }
  }

  /** A list without duplicates is its own first occurrences. */
  lemma {:induction false} FirstOccurrencesOfDistinct(xs: seq<string>)
    requires NoDuplicates(xs)
    ensures FirstOccurrences(xs) == xs
  {
    if xs != [] {
      var p := xs[..|xs| - 1];
      FirstOccurrencesOfDistinct(p);
      assert xs[|xs| - 1] !in p;
    }
  }

  /** Filtering the output of `parseEmails` once more changes nothing. */
  lemma ParseEmailsIdempotent(matches: seq<string>)
    ensures var r := FirstOccurrences(ValidEmails(matches));
            FirstOccurrences(ValidEmails(r)) == r
  {
    var r := FirstOccurrences(ValidEmails(matches));
    forall x | x in r
      ensures IsValidEmail(x)
    {
      ValidEmailsMember(matches, x);
    }
    ValidEmailsOfValid(r);
    FirstOccurrencesOfDistinct(r);
  }
}
