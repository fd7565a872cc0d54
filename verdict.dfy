/** The verdict test of `is_job_offer`: the classifier is asked to answer "YES" or
    "NO", and only an answer that reads YES once trimmed and upper-cased counts. */
module Verdict {
  import opened Text

  /** The word "yes" in any mix of upper and lower case. */
  predicate SaysYes(w: string) {
    |w| == 3 && w[0] in "yY" && w[1] in "eE" && w[2] in "sS"
  }

  /** The verdict drawn from the classifier's reply. */
  function IsJobOffer(reply: string): bool {
    Upper(Strip(reply)) == "YES"
  }

  lemma UpperIsYes(w: string)
    ensures Upper(w) == "YES" <==> SaysYes(w)
  {
    if SaysYes(w) {
      assert Upper(w)[0] == 'Y' && Upper(w)[1] == 'E' && Upper(w)[2] == 'S';
    }
    if Upper(w) == "YES" {
      assert UpperChar(w[0]) == 'Y' && UpperChar(w[1]) == 'E' && UpperChar(w[2]) == 'S';
    }
  }

  /** `reply` holds "yes", in any case, at index `i`, with only whitespace around it. */
  predicate YesAt(reply: string, i: int) {
    0 <= i <= |reply| - 3 && AllSpace(reply[..i]) && SaysYes(reply[i..i + 3]) && AllSpace(reply[i + 3..])
  }

  lemma PositiveIsFramedYes(reply: string)
    requires IsJobOffer(reply)
    ensures YesAt(reply, |reply| - |TrimStart(reply)|)
  {
    var r := Strip(reply);
    UpperIsYes(r);
    StripFrame(reply);
    var i := |reply| - |TrimStart(reply)|;
    assert reply[i..i + 3] == r;
  }

  lemma FramedYesIsPositive(reply: string, i: int)
    requires YesAt(reply, i)
    ensures IsJobOffer(reply)
  {
    var w := reply[i..i + 3];
    assert Tight(w);
    assert reply == reply[..i] + w + reply[i + 3..];
    StripFramed(reply[..i], w, reply[i + 3..]);
    UpperIsYes(w);
  }

  /** The verdict is positive exactly when the reply is "yes", in any case, with only
      whitespace before and after it. */
  lemma JobOfferIff(reply: string)
    ensures IsJobOffer(reply) <==> exists i :: YesAt(reply, i)
  {
    if IsJobOffer(reply) {
      PositiveIsFramedYes(reply);
    }
    if i :| YesAt(reply, i) {
      FramedYesIsPositive(reply, i);
    }
  }

  /** A reply padded with whitespace still counts. */
  lemma PaddedYesCounts()
    ensures IsJobOffer(" yes\n")
  {
    var reply := " yes\n";
    assert reply[..1] == " " && reply[1..4] == "yes" && reply[4..] == "\n";
    FramedYesIsPositive(reply, 1);
  }

  /** A reply with anything beyond the word, punctuation included, does not count. */
  lemma NearMissesDoNotCount()
    ensures !IsJobOffer("NO") && !IsJobOffer("Yes.")
  {
  }
}
