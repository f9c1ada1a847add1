/** Phone-number normalization: the character filter the server applies before
    comparing a dialed number with the numbers stored in the customer directory. */
module PhoneNumbers {

  /** A character survives normalization when it is an ASCII digit or a plus sign.
      Every plus sign survives, wherever it stands, not only a leading one. */
  predicate IsKept(c: char) {
    '0' <= c <= '9' || c == '+'
  }

  /** Every character of `s` is one that normalization keeps. */
  predicate AllKept(s: string) {
    forall i :: 0 <= i < |s| ==> IsKept(s[i])
  }

  /** No character of `s` is one that normalization keeps. */
  predicate NoneKept(s: string) {
    forall i :: 0 <= i < |s| ==> !IsKept(s[i])
  }

  /** The characters a person typically writes between the digits of a phone number. */
  predicate IsFormatting(c: char) {
    c == ' ' || c == '-' || c == '(' || c == ')' || c == '.'
  }

  /** `t` can be obtained from `s` by deleting characters, keeping order. */
  predicate IsSubsequence(t: string, s: string)
    decreases |s|
  {
    if |t| == 0 then true
    else if |s| == 0 then false
    else if t[0] == s[0] then IsSubsequence(t[1..], s[1..])
    else IsSubsequence(t, s[1..])
  }

  /** The normalized form of a phone string: its digits and plus signs, in order. */
  function Normalize(s: string): (r: string)
    ensures AllKept(r)
    ensures |r| <= |s|
  {
    if |s| == 0 then []
    else (if IsKept(s[0]) then [s[0]] else []) + Normalize(s[1..])
  }

  /** The character-by-character loop of the server, appending each kept
      character to the result; it computes exactly `Normalize`. */
  method NormalizePhoneNumber(phone: string) returns (normalized: string)
    ensures normalized == Normalize(phone)
  {
    normalized := "";
    var i := 0;
    while i < |phone|
      invariant 0 <= i <= |phone|
      invariant normalized == Normalize(phone[..i])
    {
      var ch := phone[i];
      if '0' <= ch <= '9' || ch == '+' {
        normalized := normalized + [ch];
      }
      assert phone[..i + 1] == phone[..i] + [ch];
      NormalizeAppend(phone[..i], [ch]);
      i := i + 1;
    }
    assert phone[..|phone|] == phone;
  }

  /** Normalization distributes over concatenation. */
  lemma {:induction false} NormalizeAppend(a: string, b: string)
    ensures Normalize(a + b) == Normalize(a) + Normalize(b)
    decreases |a|
  {
    if |a| == 0 {
      assert a + b == b;
    } else {
      var head: string := if IsKept(a[0]) then [a[0]] else [];
      assert (a + b)[0] == a[0];
      assert (a + b)[1..] == a[1..] + b;
      calc {
        Normalize(a + b);
        head + Normalize(a[1..] + b);
        { NormalizeAppend(a[1..], b); }
        head + (Normalize(a[1..]) + Normalize(b));
        (head + Normalize(a[1..])) + Normalize(b);
        Normalize(a) + Normalize(b);
      }
    }
  }

  /** A string is left unchanged by normalization exactly when it already
      consists of digits and plus signs only. */
  lemma {:induction false} NormalizeFixedPoint(s: string)
    ensures Normalize(s) == s <==> AllKept(s)
    decreases |s|
  {
    if |s| > 0 && AllKept(s) {
      assert AllKept(s[1..]) by {
        forall i | 0 <= i < |s[1..]| ensures IsKept(s[1..][i]) {
          assert s[1..][i] == s[i + 1];
        }
      }
      NormalizeFixedPoint(s[1..]);
      assert s == [s[0]] + s[1..];
    }
  }

  /** Normalizing an already normalized string changes nothing. */
  lemma NormalizeIdempotent(s: string)
    ensures Normalize(Normalize(s)) == Normalize(s)
  {
    NormalizeFixedPoint(Normalize(s));
  }

  /** Normalization yields the empty string exactly when the input holds no
      digit and no plus sign. */
  lemma {:induction false} NormalizeEmpty(s: string)
    ensures Normalize(s) == [] <==> NoneKept(s)
    decreases |s|
  {
    if |s| > 0 {
      NormalizeEmpty(s[1..]);
      if NoneKept(s) {
        assert !IsKept(s[0]);
        assert NoneKept(s[1..]) by {
          forall i | 0 <= i < |s[1..]| ensures !IsKept(s[1..][i]) {
            assert s[1..][i] == s[i + 1];
          }
        }
      } else if !IsKept(s[0]) {
        var i :| 0 <= i < |s| && IsKept(s[i]);
        assert s[1..][i - 1] == s[i];
      }
    }
  }

  /** Inserting or deleting a run of dropped characters (spaces, hyphens,
      parentheses, dots, letters, ...) anywhere leaves the normalized form
      unchanged. */
  lemma SeparatorsIgnored(a: string, sep: string, b: string)
    requires NoneKept(sep)
    ensures Normalize(a + sep + b) == Normalize(a + b)
  {
    NormalizeEmpty(sep);
    NormalizeAppend(a, sep);
    NormalizeAppend(a + sep, b);
    NormalizeAppend(a, b);
  }

  /** The usual formatting characters are all dropped by normalization. */
  lemma FormattingDropped(sep: string)
    requires forall i :: 0 <= i < |sep| ==> IsFormatting(sep[i])
    ensures Normalize(sep) == []
  {
    NormalizeEmpty(sep);
  }

  /** The normalized form is obtained from the input by deleting characters:
      the digits and plus signs keep their relative order. */
  lemma {:induction false} NormalizeSubsequence(s: string)
    ensures IsSubsequence(Normalize(s), s)
    decreases |s|
  {
    if |s| > 0 {
      NormalizeSubsequence(s[1..]);
      if IsKept(s[0]) {
        assert Normalize(s) == [s[0]] + Normalize(s[1..]);
        assert Normalize(s)[1..] == Normalize(s[1..]);
      } else {
        assert Normalize(s) == Normalize(s[1..]);
        KeptPrefixDropped(Normalize(s), s);
      }
    }
  }

  /** Helper: when the first character of `s` is dropped, a subsequence of the
      rest made only of kept characters is also a subsequence of `s`. */
  lemma KeptPrefixDropped(t: string, s: string)
    requires |s| > 0 && !IsKept(s[0])
    requires AllKept(t)
    requires IsSubsequence(t, s[1..])
    ensures IsSubsequence(t, s)
  {
    if |t| > 0 {
      assert t[0] != s[0];
    }
  }

  /** Every digit and plus sign occurs in the normalized form exactly as often
      as in the input, and every other character not at all. */
  lemma {:induction false} NormalizeCounts(s: string, c: char)
    ensures multiset(Normalize(s))[c] == if IsKept(c) then multiset(s)[c] else 0
    decreases |s|
  {
    if |s| > 0 {
      NormalizeCounts(s[1..], c);
      assert s == [s[0]] + s[1..];
      assert multiset(s) == multiset([s[0]]) + multiset(s[1..]);
      var head: string := if IsKept(s[0]) then [s[0]] else [];
      assert Normalize(s) == head + Normalize(s[1..]);
      assert multiset(Normalize(s)) == multiset(head) + multiset(Normalize(s[1..]));
    }
  }

  /** Plus signs are kept wherever they occur, not only in leading position. */
  lemma PlusKeptAnywhere(a: string, b: string)
    ensures Normalize(a + "+" + b) == Normalize(a) + "+" + Normalize(b)
  {
    NormalizeAppend(a, "+");
    NormalizeAppend(a + "+", b);
    NormalizeFixedPoint("+");
  }

  /** Normalization only strips characters; it does not turn a national trunk
      prefix into a country code: whatever the rest of the number, the
      international spelling keeps its "+27" and the national one its "0", so
      the two normalize differently. */
  lemma NoCountryCodeRewriting(s: string)
    ensures Normalize("+27" + s) == "+27" + Normalize(s)
    ensures Normalize("0" + s) == "0" + Normalize(s)
    ensures Normalize("+27" + s) != Normalize("0" + s)
  {
    NormalizeAppend("+27", s);
    NormalizeFixedPoint("+27");
    LeadingZeroKept(s);
    assert Normalize("+27" + s)[0] == '+';
    assert Normalize("0" + s)[0] == '0';
  }

  /** A leading zero is kept as it is: no trunk prefix is ever rewritten. */
  lemma LeadingZeroKept(s: string)
    ensures Normalize("0" + s) == "0" + Normalize(s)
  {
    NormalizeAppend("0", s);
    NormalizeFixedPoint("0");
  }
}
