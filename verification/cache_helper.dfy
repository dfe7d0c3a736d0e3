/** CacheHelper.ValidateKey: the key check that the in-memory and Redis
    adapters run before touching their store. */
module CacheHelper {
  import opened CacheBase

  /** char.IsWhiteSpace: the space, line and paragraph separators, the
      controls U+0009..U+000D and U+0085. */
  predicate IsWhiteSpace(c: char) {
    var n := c as int;
    || (0x09 <= n <= 0x0D)
    || n == 0x20
    || n == 0x85
    || n == 0xA0
    || n == 0x1680
    || (0x2000 <= n <= 0x200A)
    || n == 0x2028
    || n == 0x2029
    || n == 0x202F
    || n == 0x205F
    || n == 0x3000
  }

  /** Scans the string front to back, as string.IsNullOrWhiteSpace does. */
  function AllWhiteSpace(s: string): (r: bool)
    ensures r <==> forall i :: 0 <= i < |s| ==> IsWhiteSpace(s[i])
  {
    if |s| == 0 then true else IsWhiteSpace(s[0]) && AllWhiteSpace(s[1..])
  }

  /** string.IsNullOrWhiteSpace */
  predicate IsNullOrWhiteSpace(key: Key) {
    key.NullKey? || AllWhiteSpace(key.text)
  }

  /** Fails with InvalidKey exactly when the key is null, empty or made of
      white space only; it has no other outcome and no effect. */
  function ValidateKey(key: Key): (r: Result<()>)
    ensures r.Err? ==> r.error == InvalidKey
    ensures r.Ok? <==> key.Key? && exists i :: 0 <= i < |key.text| && !IsWhiteSpace(key.text[i])
  {
    if IsNullOrWhiteSpace(key) then Err(InvalidKey) else Ok(())
  }

  /** A null key, the empty key and white-space keys are refused; a key with
      one visible character anywhere is accepted. */
  lemma ValidateKeyExamples()
    ensures ValidateKey(NullKey) == Err(InvalidKey)
    ensures ValidateKey(Key("")) == Err(InvalidKey)
    ensures ValidateKey(Key(" \t\r\n")) == Err(InvalidKey)
    ensures ValidateKey(Key("  a")) == Ok(())
  {
    assert !IsWhiteSpace("  a"[2]);
  }
}
