/** The hash function of zset.cc and db.cc. */
module StringHash {
  import opened Pairs

  ghost function Hash(data: Name): nat {
    if data == [] then 0x811C9DC5
    else (Hash(data[..|data| - 1]) + data[|data| - 1] as nat) % UINT32_RANGE * 0x1000193 % UINT32_RANGE
  }

  /** str_hash() */
  method StrHash(data: Name) returns (h: nat)
    ensures h == Hash(data)
  {
    h := 0x811C9DC5;
    for i := 0 to |data|
      invariant h == Hash(data[..i])
    {
      h := (h + data[i] as nat) % UINT32_RANGE * 0x1000193 % UINT32_RANGE;
      assert data[..i + 1][..i] == data[..i];
    }
    assert data[..|data|] == data;
  }
}
