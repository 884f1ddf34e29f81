/** How the single endpoint tells the two request kinds apart: by looking for
    the root element name anywhere in the raw body text, the customer lookup
    first. Nothing is parsed at this stage; a body that merely mentions a name
    (in a comment, say) is routed by it all the same.
 */
module Dispatch {
  import opened Wrappers
  import Xml

  datatype Kind = CustomerInfo | PaymentNotification | Invalid

  const CustomerMarker: string := "CustomerInformationRequest"
  const PaymentMarker: string := "PaymentNotificationRequest"

  /** The markers are the root names of the two requests, as written in the text. */
  lemma MarkersAreRequestRoots()
    ensures Xml.RootName(Xml.CustomerInformationRequest) == Some(CustomerMarker)
    ensures Xml.RootName(Xml.PaymentNotificationRequest) == Some(PaymentMarker)
  {
  }

  /** `m` sits in `s` starting at index `i`. */
  predicate MatchesAt(s: string, m: string, i: int) {
    0 <= i && i + |m| <= |s| && s[i..i + |m|] == m
  }

  /** `m` is a substring of `s`: the meaning of Java's `String.contains`. */
  ghost predicate OccursIn(m: string, s: string) {
    exists i :: MatchesAt(s, m, i)
  }

  /** Substring search by trying every start position from the left. */
  function Contains(s: string, m: string): (r: bool)
    ensures r <==> OccursIn(m, s)
    decreases |s|
  {
    if |m| <= |s| && s[..|m|] == m then
      assert MatchesAt(s, m, 0);
      true
    else if |s| == 0 then
      assert forall i :: MatchesAt(s, m, i) ==> i == 0;
      false
    else
      ShiftMatch(s, m);
      Contains(s[1..], m)
  }

  /** Away from index 0, a match in `s` is a match in `s[1..]` one place earlier. */
  lemma ShiftMatch(s: string, m: string)
    requires |s| > 0
    requires !MatchesAt(s, m, 0)
    ensures OccursIn(m, s) <==> OccursIn(m, s[1..])
  {
    if OccursIn(m, s) {
      var i :| MatchesAt(s, m, i);
      assert s[1..][i - 1..i - 1 + |m|] == s[i..i + |m|];
      assert MatchesAt(s[1..], m, i - 1);
    }
    if OccursIn(m, s[1..]) {
      var j :| MatchesAt(s[1..], m, j);
      assert s[j + 1..j + 1 + |m|] == s[1..][j..j + |m|];
      assert MatchesAt(s, m, j + 1);
    }
  }

  /** The branch the endpoint takes for a request body. */
  function Classify(body: string): (k: Kind)
    ensures k == CustomerInfo <==> OccursIn(CustomerMarker, body)
    ensures k == PaymentNotification <==>
              !OccursIn(CustomerMarker, body) && OccursIn(PaymentMarker, body)
    ensures k == Invalid <==>
              !OccursIn(CustomerMarker, body) && !OccursIn(PaymentMarker, body)
  {
    if Contains(body, CustomerMarker) then CustomerInfo
    else if Contains(body, PaymentMarker) then PaymentNotification
    else Invalid
  }

  /** A customer-information body is classified as such even when it also
      mentions a payment notification: the customer test comes first. */
  lemma CustomerMarkerWins(body: string)
    requires OccursIn(CustomerMarker, body) && OccursIn(PaymentMarker, body)
    ensures Classify(body) == CustomerInfo
  {
  }

  /** A substring stays a substring of any text around it. */
  lemma {:induction false} OccursInExtended(m: string, s: string, pre: string, post: string)
    requires OccursIn(m, s)
    ensures OccursIn(m, pre + s + post)
  {
    var i :| MatchesAt(s, m, i);
    var t := pre + s + post;
    assert t[|pre| + i..|pre| + i + |m|] == s[i..i + |m|];
    assert MatchesAt(t, m, |pre| + i);
  }

  /** Embedding a body in more text never turns a recognised request invalid,
      and keeps a customer-information request one. */
  lemma ClassifyExtended(body: string, pre: string, post: string)
    ensures Classify(body) == CustomerInfo ==> Classify(pre + body + post) == CustomerInfo
    ensures Classify(body) != Invalid ==> Classify(pre + body + post) != Invalid
  {
    if OccursIn(CustomerMarker, body) {
      OccursInExtended(CustomerMarker, body, pre, post);
    }
    if OccursIn(PaymentMarker, body) {
      OccursInExtended(PaymentMarker, body, pre, post);
    }
  }
}
