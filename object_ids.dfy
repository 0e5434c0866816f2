/**
 * Storage identifiers. A blob id is an ObjectId; the routes accept it in its textual
 * form. `ValidId` is the check `ObjectId.isValid` applies to a path string, and
 * `Canonical` is `new ObjectId(s).toString()`: the same twelve bytes printed as
 * lower-case hex.
 */
module ObjectIds {
  import opened Text

  predicate IsHexDigit(c: char) {
    '0' <= c <= '9' || 'a' <= c <= 'f' || 'A' <= c <= 'F'
  }

  /** A string of exactly 24 hexadecimal digits, in either case. */
  predicate ValidId(s: string) {
    |s| == 24 && forall i :: 0 <= i < |s| ==> IsHexDigit(s[i])
  }

  /** The textual form of the ObjectId that `s` denotes. */
  function Canonical(s: string): string {
    Lower(s)
  }

  /** Ids as the storage layer prints them: valid and already canonical. */
  predicate IsCanonicalId(s: string) {
    ValidId(s) && Canonical(s) == s
  }

  /** Parsing and printing a valid id yields a canonical id, and does so again unchanged. */
  lemma CanonicalIsCanonicalId(s: string)
    requires ValidId(s)
    ensures IsCanonicalId(Canonical(s))
  {
    var c := Canonical(s);
    forall i | 0 <= i < |c| ensures LowerChar(c[i]) == c[i] && IsHexDigit(c[i]) {
      assert c[i] == LowerChar(s[i]);
    }
    assert Lower(c) == c;
  }
}
