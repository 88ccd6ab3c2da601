/** `hash_func` (common_hashtable_dll.c:9-17): 32-bit wrapping arithmetic over signed chars. */
module HashFunction {

  const HASH_SIZE := 1024
  const UINT_SIZE := 0x1_0000_0000

  // A byte read through `const char *`, sign-extended as on the usual targets.
  function CharCode(ch: char): (code: int)
    ensures -128 <= code < 128 && (code - ch as int) % 256 == 0
  {
    var byte := ch as int % 256;
    if byte >= 128 then byte - 256 else byte
  }

  function Pow31(k: nat): nat {
    if k == 0 then 1 else 31 * Pow31(k - 1)
  }

  // The polynomial in 31 whose coefficients are the characters, over unbounded integers.
  function Polynomial(key: string): int {
    if key == "" then 0 else CharCode(key[0]) * Pow31(|key| - 1) + Polynomial(key[1..])
  }

  function Hash(key: string): (h: nat)
    ensures h < HASH_SIZE
  {
    Polynomial(key) % HASH_SIZE
  }

  lemma {:induction false} Horner(key: string, ch: char)
    ensures Polynomial("") == 0
    ensures Polynomial(key + [ch]) == 31 * Polynomial(key) + CharCode(ch)
  {
    if key == "" {
      assert key + [ch] == [ch];
      assert [ch][1..] == "";
      assert Pow31(0) == 1;
    } else {
      assert (key + [ch])[1..] == key[1..] + [ch];
      Horner(key[1..], ch);
      var c, p := CharCode(key[0]), Pow31(|key| - 1);
      assert Pow31(|key|) == 31 * p;
      assert c * (31 * p) == 31 * (c * p);
    }
  }

  // Reducing modulo 2^32 first does not change the residue modulo 1024.
  lemma WrapThenReduce(x: int)
    ensures x % UINT_SIZE % HASH_SIZE == x % HASH_SIZE
  {
  }

  lemma WrapStep(x: int, c: int)
    ensures (x % UINT_SIZE * 31 + c) % UINT_SIZE == (31 * x + c) % UINT_SIZE
  {
  }

  // Wrapping at every character and reducing at the end gives the exact polynomial's residue.
  method HashFunc(key: string) returns (h: nat)
    ensures h == Polynomial(key) % 1024
  {
    var hash := 0;
    var p := 0;
    while p < |key|
      invariant 0 <= p <= |key|
      invariant hash == Polynomial(key[..p]) % UINT_SIZE
    {
      Horner(key[..p], key[p]);
      WrapStep(Polynomial(key[..p]), CharCode(key[p]));
      assert key[..p + 1] == key[..p] + [key[p]];
      hash := (hash * 31 + CharCode(key[p])) % UINT_SIZE;
      p := p + 1;
    }
    assert key[..p] == key;
    WrapThenReduce(Polynomial(key));
    h := hash % HASH_SIZE;
  }
}
