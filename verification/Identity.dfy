// Event identities (backend/internal/normalize/identity.go). The digest is taken to be ideal, so an
// identity is represented by the text that is hashed.

module Identities {
  import opened Text
  import opened FieldEncoding

  function EventID(feedID: string, vendorRequestID: string, rawBytes: string): string {
    var trimmed := TrimSpace(vendorRequestID);
    if trimmed != "" then Fields([feedID, "rid", trimmed]) else Fields([feedID, "raw", rawBytes])
  }

  function EventIDFor(feedID: string, vendor: string, vendorRequestID: string, rawBytes: string): string {
    var requestID := TrimSpace(vendorRequestID);
    if requestID == "" then EventID(feedID, "", rawBytes)
    else EventID(feedID, vendor + "|" + requestID, rawBytes)
  }

  // One delivered record, as its identity sees it.
  datatype Delivery = Delivery(feedID: string, vendor: string, requestID: string, rawBytes: string)

  function IdentityOf(d: Delivery): string {
    EventIDFor(d.feedID, d.vendor, d.requestID, d.rawBytes)
  }

  // The vendor names in use: no separator and no space in front.
  predicate IsVendorName(vendor: string) {
    '|' !in vendor && (vendor != [] ==> !IsSpace(vendor[0]))
  }

  lemma {:induction false} TrimLeftShape(s: string)
    ensures TrimLeft(s) != [] ==> !IsSpace(TrimLeft(s)[0])
    ensures s != [] && !IsSpace(s[0]) ==> TrimLeft(s) == s
  {
    if s != [] && IsSpace(s[0]) {
      TrimLeftShape(s[1..]);
    }
  }

  lemma {:induction false} TrimRightShape(s: string)
    ensures TrimRight(s) <= s
    ensures TrimRight(s) != [] ==> !IsSpace(TrimRight(s)[|TrimRight(s)| - 1])
    ensures s != [] && !IsSpace(s[|s| - 1]) ==> TrimRight(s) == s
  {
    if s != [] && IsSpace(s[|s| - 1]) {
      TrimRightShape(s[..|s| - 1]);
    }
  }

  lemma {:induction false} TrimLeftOfJoined(vendor: string, rest: string)
    requires rest != "" && !IsSpace(rest[0])
    ensures TrimLeft(vendor + rest) == TrimLeft(vendor) + rest
  {
    if vendor == "" {
      assert vendor + rest == rest;
    } else {
      assert (vendor + rest)[0] == vendor[0];
      if IsSpace(vendor[0]) {
        assert (vendor + rest)[1..] == vendor[1..] + rest;
        TrimLeftOfJoined(vendor[1..], rest);
      }
    }
  }

  // The spaces in front of a vendor name are all that is trimmed from it and a trimmed request id.
  lemma JoinedIsTrimmed(vendor: string, requestID: string)
    requires TrimSpace(requestID) != ""
    ensures TrimSpace(vendor + "|" + TrimSpace(requestID)) == TrimLeft(vendor) + "|" + TrimSpace(requestID)
  {
    var trimmed := TrimSpace(requestID);
    TrimRightShape(TrimLeft(requestID));
    assert vendor + "|" + trimmed == vendor + ("|" + trimmed);
    TrimLeftOfJoined(vendor, "|" + trimmed);
    var joined := TrimLeft(vendor) + ("|" + trimmed);
    assert joined == TrimLeft(vendor) + "|" + trimmed;
    assert joined[|joined| - 1] == trimmed[|trimmed| - 1];
    TrimRightShape(joined);
  }

  // The fields behind an identity: which kind it is, and the text that tells events of a feed apart.
  lemma IdentityFields(d: Delivery)
    ensures IdentityOf(d) == if TrimSpace(d.requestID) == "" then Fields([d.feedID, "raw", d.rawBytes])
                             else Fields([d.feedID, "rid", TrimLeft(d.vendor) + "|" + TrimSpace(d.requestID)])
  {
    hide Fields, TrimLeft, TrimRight;
    if TrimSpace(d.requestID) == "" {
      TrimOfNothing();
    } else {
      JoinedIsTrimmed(d.vendor, d.requestID);
    }
  }

  lemma TrimOfNothing()
    ensures TrimSpace("") == ""
  {
  }

  predicate SameEvent(a: Delivery, b: Delivery) {
    var s, t := TrimSpace(a.requestID), TrimSpace(b.requestID);
    a.feedID == b.feedID
    && if s == "" || t == "" then s == t && a.rawBytes == b.rawBytes else a.vendor == b.vendor && s == t
  }

  // For all deliveries: they share an identity exactly when they come from one feed and either
  // neither names a request and the bytes are the same, or vendor and request read the same joined.
  lemma IdentityExactlyWhen(a: Delivery, b: Delivery)
    ensures var s, t := TrimSpace(a.requestID), TrimSpace(b.requestID);
      IdentityOf(a) == IdentityOf(b) <==>
        && a.feedID == b.feedID
        && if s == "" || t == "" then s == t && a.rawBytes == b.rawBytes
           else TrimLeft(a.vendor) + "|" + s == TrimLeft(b.vendor) + "|" + t
  {
    hide Fields, TrimSpace, IdentityOf;
    IdentityFields(a);
    IdentityFields(b);
    var s, t := TrimSpace(a.requestID), TrimSpace(b.requestID);
    var x := [a.feedID, if s == "" then "raw" else "rid", if s == "" then a.rawBytes else TrimLeft(a.vendor) + "|" + s];
    var y := [b.feedID, if t == "" then "raw" else "rid", if t == "" then b.rawBytes else TrimLeft(b.vendor) + "|" + t];
    assert IdentityOf(a) == Fields(x) && IdentityOf(b) == Fields(y);
    if IdentityOf(a) == IdentityOf(b) {
      FieldsInjective(x, y);
      assert x[0] == y[0] && x[1] == y[1] && x[2] == y[2];
      assert "raw"[1] != "rid"[1];
    }
  }

  // With vendor names that hold no separator and open with no space, two deliveries share an
  // identity exactly when they are one event of one feed.
  lemma IdentityIsPerFeedVendorAndRequest(a: Delivery, b: Delivery)
    requires IsVendorName(a.vendor) && IsVendorName(b.vendor)
    ensures IdentityOf(a) == IdentityOf(b) <==> SameEvent(a, b)
  {
    hide TrimSpace, IdentityOf, TrimLeft;
    IdentityExactlyWhen(a, b);
    TrimLeftShape(a.vendor);
    TrimLeftShape(b.vendor);
    NameIsTrimmed(a.vendor);
    NameIsTrimmed(b.vendor);
    var s, t := TrimSpace(a.requestID), TrimSpace(b.requestID);
    if s != "" && t != "" && a.vendor + "|" + s == b.vendor + "|" + t {
      SplitAtSeparator(a.vendor, s, b.vendor, t, '|');
    }
  }

  lemma NameIsTrimmed(vendor: string)
    requires vendor == "" || !IsSpace(vendor[0])
    ensures TrimLeft(vendor) == vendor
  {
  }

  // One name is the other followed by the separator and a tail that does not open with a space.
  predicate Extends(v: string, w: string) {
    w + "|" <= v && (|v| > |w| + 1 ==> !IsSpace(v[|w| + 1]))
  }

  // Some request of one vendor and some request of the other are one event.
  ghost predicate CanCollide(v: string, w: string) {
    exists a: Delivery, b: Delivery ::
      a.vendor == v && b.vendor == w && IdentityOf(a) == IdentityOf(b)
      && TrimSpace(a.requestID) != "" && TrimSpace(b.requestID) != ""
  }

  // Two vendors can collide exactly when their names, spaces in front aside, are the same or one
  // extends the other past a separator.
  lemma VendorsCollideExactlyWhen(v: string, w: string)
    ensures var p, q := TrimLeft(v), TrimLeft(w);
      CanCollide(v, w) <==> p == q || Extends(p, q) || Extends(q, p)
  {
    hide TrimLeft, TrimRight, TrimSpace, IdentityOf;
    var p, q := TrimLeft(v), TrimLeft(w);
    if CanCollide(v, w) {
      var a: Delivery, b: Delivery :| a.vendor == v && b.vendor == w && IdentityOf(a) == IdentityOf(b)
        && TrimSpace(a.requestID) != "" && TrimSpace(b.requestID) != "";
      IdentityExactlyWhen(a, b);
      TrimmedOpens(a.requestID);
      TrimmedOpens(b.requestID);
      JoinedAlike(p, TrimSpace(a.requestID), q, TrimSpace(b.requestID));
    }
    if p == q || Extends(p, q) {
      Collides(v, w);
    }
    if Extends(q, p) {
      Collides(w, v);
      CollisionIsMutual(w, v);
    }
  }

  lemma TrimmedOpens(s: string)
    ensures TrimSpace(s) != "" ==> !IsSpace(TrimSpace(s)[0])
  {
    hide TrimLeft, TrimRight;
    TrimLeftShape(s);
    TrimRightShape(TrimLeft(s));
  }

  lemma JoinedAlike(p: string, s: string, q: string, t: string)
    requires p + "|" + s == q + "|" + t && s != "" && t != "" && !IsSpace(s[0]) && !IsSpace(t[0])
    ensures p == q || Extends(p, q) || Extends(q, p)
  {
    hide IsSpace;
    var joined := p + "|" + s;
    if |p| > |q| {
      assert joined[..|q| + 1] == q + "|" && joined[..|q| + 1] == p[..|q| + 1];
      assert joined[|q| + 1] == t[0];
    } else if |q| > |p| {
      assert joined[..|p| + 1] == p + "|" && joined[..|p| + 1] == q[..|p| + 1];
      assert joined[|p| + 1] == s[0];
    } else {
      assert joined[..|p|] == p && joined[..|q|] == q;
    }
  }

  // The longer name with request x, and the shorter with what is left of it.
  lemma Collides(v: string, w: string)
    requires TrimLeft(v) == TrimLeft(w) || Extends(TrimLeft(v), TrimLeft(w))
    ensures CanCollide(v, w)
  {
    hide TrimLeft, TrimRight, IdentityOf, TrimSpace, IsSpace;
    var p, q := TrimLeft(v), TrimLeft(w);
    var t := if p == q then "x" else p[|q| + 1..] + "|x";
    assert p + "|" + "x" == q + "|" + t;
    NoSpace();
    Unspaced("x");
    Unspaced(t);
    IdentityExactlyWhen(Delivery("", v, "x", ""), Delivery("", w, t, ""));
  }

  lemma NoSpace()
    ensures !IsSpace('x') && !IsSpace('|')
  {
  }

  lemma Unspaced(s: string)
    requires s != "" && !IsSpace(s[0]) && !IsSpace(s[|s| - 1])
    ensures TrimSpace(s) == s
  {
    hide IsSpace;
  }

  lemma CollisionIsMutual(v: string, w: string)
    requires CanCollide(v, w)
    ensures CanCollide(w, v)
  {
    hide IdentityOf, TrimSpace;
  }

  // The separator is what the condition on vendor names is for: with it inside a name, two vendors'
  // records of different requests are one event.
  lemma SeparatorInAVendorCollides(feedID: string, rawBytes: string)
    ensures var a := Delivery(feedID, "a|b", "c", rawBytes);
      var b := Delivery(feedID, "a", "b|c", rawBytes);
      IdentityOf(a) == IdentityOf(b) && !SameEvent(a, b)
  {
    TrimKeepsUnspaced("c");
    TrimKeepsUnspaced("b|c");
    TrimKeepsUnspaced("a|b|c");
    assert "a|b" + "|" + "c" == "a|b|c" && "a" + "|" + "b|c" == "a|b|c";
  }
}
