/**
 * The address-dependent predicates of the page view model
 * (js/itemListViewModel.js): ownership, offer eligibility, the claim-list
 * filter and the compact display form of an address.
 */
module ItemRules {
  import opened Wrappers
  import opened Ledgers

  /** `toUpperCase` on one character, restricted to the ASCII letters addresses use. */
  function UpperChar(c: char): char {
    if 'a' <= c <= 'z' then (c as int - 32) as char else c
  }

  /** `String.prototype.toUpperCase`, character by character. */
  function ToUpper(s: string): (r: string)
    ensures |r| == |s|
    ensures forall i :: 0 <= i < |s| ==> r[i] == UpperChar(s[i])
  {
    if s == [] then [] else [UpperChar(s[0])] + ToUpper(s[1..])
  }

  /** Two characters are the same letter up to case (or simply equal). */
  predicate SameLetter(c: char, d: char) {
    c == d || ('a' <= c <= 'z' && d as int == c as int - 32) || ('A' <= c <= 'Z' && d as int == c as int + 32)
  }

  /** Reference definition: equal length and, position by position, the same letter up to case. */
  predicate SameUpToCase(a: string, b: string) {
    |a| == |b| && forall i :: 0 <= i < |a| ==> SameLetter(a[i], b[i])
  }

  /**
   * `isOwn(address)`: `address.toUpperCase() == actualAddress().toUpperCase()`,
   * which is equality up to letter case.
   */
  function IsOwn(address: string, actual: string): (r: bool)
    ensures r <==> SameUpToCase(address, actual)
  {
    UpperEqualIffSameUpToCase(address, actual);
    ToUpper(address) == ToUpper(actual)
  }

  /** `canOffer(item)`: still open for offers and neither its owner nor its current bidder is acting. */
  function CanOffer(item: Item, actual: string): (r: bool)
    ensures r <==> item.state <= Offered && !SameUpToCase(item.owner, actual) && !SameUpToCase(item.offerAddress, actual)
  {
    UpperEqualIffSameUpToCase(item.owner, actual);
    UpperEqualIffSameUpToCase(item.offerAddress, actual);
    item.state <= Offered
      && ToUpper(item.owner) != ToUpper(actual)
      && ToUpper(item.offerAddress) != ToUpper(actual)
  }

  /** The predicate `loadClaimList` passes to `retrieveAllItems`. */
  function Claimable(item: Item, actual: string): (r: bool)
    ensures r <==> SameUpToCase(item.owner, actual) && item.state >= Finished
  {
    IsOwn(item.owner, actual) && item.state >= Finished
  }

  /** JavaScript's clamping of a `substring` index into [0, n]. */
  function Clamp(x: int, n: nat): nat
  {
    if x < 0 then 0 else if x > n then n else x
  }

  /** `s.substring(start, end)`: both indices clamped, swapped when out of order. */
  function Substring(s: string, start: int, end: int): (r: string)
    ensures |r| <= |s|
    ensures 0 <= start <= end <= |s| ==> r == s[start..end]
    ensures 0 <= end <= start <= |s| ==> r == s[end..start]
    ensures 0 <= start <= |s| <= end ==> r == s[start..]
    ensures start <= 0 && 0 <= end <= |s| ==> r == s[..end]
    ensures start <= 0 && |s| <= end ==> r == s
  {
    var a := Clamp(start, |s|);
    var b := Clamp(end, |s|);
    if a <= b then s[a..b] else s[b..a]
  }

  /**
   * `compactAddress(address)`; `None` stands for null or undefined, and the
   * empty string is falsy as well. The result keeps up to 6 leading and up
   * to 4 trailing characters around "..".
   */
  function CompactAddress(address: Option<string>): (r: Option<string>)
    ensures r.None? <==> address.None? || address.value == ""
    ensures r.Some? ==>
      var a := address.value;
      var h := if |a| < 6 then |a| else 6;
      var t := if |a| < 4 then |a| else 4;
      |r.value| == h + 2 + t && r.value[..h] == a[..h] && r.value[h..h + 2] == ".." && r.value[h + 2..] == a[|a| - t..]
  {
    if address.None? || address.value == "" then None
    else
      var a := address.value;
      Some(Substring(a, 0, 6) + ".." + Substring(a, |a| - 4, |a|))
  }

  // ---------------------------------------------------------------------------
  // Lemmas
  // ---------------------------------------------------------------------------

  lemma UpperCharSame(c: char, d: char)
    ensures UpperChar(c) == UpperChar(d) <==> SameLetter(c, d)
  {
  }

  /** Upper-cased strings are equal exactly when the strings are equal up to letter case. */
  lemma UpperEqualIffSameUpToCase(a: string, b: string)
    ensures ToUpper(a) == ToUpper(b) <==> SameUpToCase(a, b)
  {
    var ua, ub := ToUpper(a), ToUpper(b);
    if SameUpToCase(a, b) {
      forall i | 0 <= i < |ua|
        ensures ua[i] == ub[i]
      {
        UpperCharSame(a[i], b[i]);
      }
    }
    if ua == ub {
      forall i | 0 <= i < |a|
        ensures SameLetter(a[i], b[i])
      {
        assert ua[i] == ub[i];
        UpperCharSame(a[i], b[i]);
      }
    }
  }

  /** Upper-casing is idempotent. */
  lemma ToUpperIdempotent(s: string)
    ensures ToUpper(ToUpper(s)) == ToUpper(s)
  {
  }

  /** `isOwn` ignores the case of both addresses, is reflexive and symmetric. */
  lemma IsOwnIgnoresCase(address: string, actual: string)
    ensures IsOwn(ToUpper(address), actual) == IsOwn(address, actual)
    ensures IsOwn(address, ToUpper(actual)) == IsOwn(address, actual)
    ensures IsOwn(address, address)
    ensures IsOwn(address, actual) == IsOwn(actual, address)
  {
    ToUpperIdempotent(address);
    ToUpperIdempotent(actual);
  }

  /** The owner and the current bidder cannot offer, in any spelling of their address; nor can anyone once Finished. */
  lemma CannotOfferOnOwnOrFinished(item: Item, actual: string)
    ensures SameUpToCase(item.owner, actual) ==> !CanOffer(item, actual)
    ensures SameUpToCase(item.offerAddress, actual) ==> !CanOffer(item, actual)
    ensures item.state > Offered ==> !CanOffer(item, actual)
  {
  }

  /** No item is both claimable and open for an offer by the same address. */
  lemma ClaimableExcludesOffer(item: Item, actual: string)
    ensures Claimable(item, actual) ==> !CanOffer(item, actual)
  {
  }

  /** For an address of at least 6 characters: its first 6, "..", its last 4; 12 characters in all. */
  lemma CompactAddressLong(a: string)
    requires |a| >= 6
    ensures CompactAddress(Some(a)) == Some(a[..6] + ".." + a[|a| - 4..])
    ensures |CompactAddress(Some(a)).value| == 12
  {
    assert Substring(a, 0, 6) == a[0..6] == a[..6];
    assert Substring(a, |a| - 4, |a|) == a[|a| - 4..|a|] == a[|a| - 4..];
  }

  /** For an address of at least 10 characters the two kept parts do not overlap. */
  lemma CompactAddressKeepsEnds(a: string)
    requires |a| >= 10
    ensures var c := CompactAddress(Some(a)).value;
      |c| == 12 && c[..6] == a[..6] && c[6..8] == ".." && c[8..] == a[|a| - 4..] && 6 <= |a| - 4
  {
    CompactAddressLong(a);
  }

  /** Shorter addresses: the clamped substrings repeat characters. */
  lemma CompactAddressShort(a: string)
    requires 0 < |a| < 6
    ensures |a| <= 4 ==> CompactAddress(Some(a)) == Some(a + ".." + a)
    ensures 4 < |a| ==> CompactAddress(Some(a)) == Some(a + ".." + a[|a| - 4..])
  {
    assert a[0..|a|] == a;
  }

  /** A falsy address (null, undefined or empty) compacts to null. */
  lemma CompactAddressFalsy(address: Option<string>)
    ensures CompactAddress(address) == None <==> address.None? || address.value == ""
  {
  }
}
