/** The stored form of an endpoint address and the record Register inserts. */
module Address {
  import opened Types

  const SCHEME := "http://"
  const COMMENT_KEY := "comment"
  const MARKER := "registered by swarm"

  predicate HasPrefix(s: string, prefix: string)
  {
    prefix <= s
  }

  /** The stored form of addr: addr itself when it already starts with http://,
      otherwise addr behind that prefix. Any other scheme is not recognised. */
  function Normalize(addr: string): (stored: string)
    ensures HasPrefix(stored, SCHEME)
    ensures |stored| == |addr| + (if HasPrefix(addr, SCHEME) then 0 else |SCHEME|)
    ensures stored[|stored| - |addr|..] == addr
  {
    if HasPrefix(addr, SCHEME) then addr else SCHEME + addr
  }

  /** Normalizing twice is normalizing once, and exactly the prefixed addresses are left alone. */
  lemma NormalizeIdempotent(addr: string)
    ensures Normalize(Normalize(addr)) == Normalize(addr)
    ensures Normalize(addr) == addr <==> HasPrefix(addr, SCHEME)
  {
  }

  /** A different scheme is kept as part of the address. */
  lemma NormalizeOtherScheme()
    ensures Normalize("https://x") == "http://https://x"
  {
    assert !HasPrefix("https://x", SCHEME) by {
      assert "https://x"[4] != SCHEME[4];
    }
  }

  /** The document Register inserts: first {field: addr, comment: marker}, in that
      order, so that a field named "comment" is overwritten by the marker; then the
      field is set to the prefixed address when addr lacks the prefix. */
  function BuildRecord(field: string, addr: string): (r: Record)
    ensures field in r && COMMENT_KEY in r
    ensures field != COMMENT_KEY ==>
      r == map[field := Str(Normalize(addr)), COMMENT_KEY := Str(MARKER)]
    ensures field == COMMENT_KEY ==>
      r == map[COMMENT_KEY := Str(if HasPrefix(addr, SCHEME) then MARKER else Normalize(addr))]
  {
    var record := map[field := Str(addr), COMMENT_KEY := Str(MARKER)];
    if HasPrefix(addr, SCHEME) then record else record[field := Str(SCHEME + addr)]
  }
}
