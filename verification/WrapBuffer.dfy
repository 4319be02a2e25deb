/** The buffer moves `tifileutil_wrap` and `unwrap_deep_entry` are made of. */
module WrapBuffer {
  import opened Bytes

  /** `tifiles_ve_realloc_data` when the buffer is too small for `needed` bytes. */
  method Grow(a: array<byte>, size: nat, needed: nat) returns (b: array<byte>)
    requires size <= a.Length
    ensures b.Length >= needed && b.Length >= size && b[..size] == a[..size]
    ensures b == a || fresh(b)
  {
    b := a;
    if a.Length < needed {
      b := new byte[needed](_ => 0);
      var i: nat := 0;
      while i < size && i < needed
        invariant i <= size && i <= needed && b.Length == needed && fresh(b)
        invariant b[..i] == a[..i]
      {
        b[i] := a[i];
        assert b[..i + 1] == b[..i] + [a[i]] && a[..i + 1] == a[..i] + [a[i]];
        i := i + 1;
      }
    }
  }

  /** `memmove(a + up, a, size)` */
  method MoveUp(a: array<byte>, size: nat, up: nat)
    requires size + up <= a.Length
    modifies a
    ensures a[up..up + size] == old(a[..size])
  {
    ghost var s := a[..size];
    var i := size;
    while i > 0
      invariant 0 <= i <= size
      invariant a[..i] == s[..i]
      invariant forall j :: i <= j < size ==> a[up + j] == s[j]
    {
      i := i - 1;
      a[up + i] := a[i];
      assert a[up + i] == s[i];
    }
  }

  /** `memmove(a, a + down, size - down)` */
  method MoveDown(a: array<byte>, size: nat, down: nat)
    requires down <= size <= a.Length
    modifies a
    ensures a[..size - down] == old(a[down..size])
  {
    ghost var s := a[..size];
    var i: nat := 0;
    while i < size - down
      invariant i <= size - down
      invariant a[i..size] == s[i..]
      invariant forall j :: 0 <= j < i ==> a[j] == s[down + j]
    {
      assert a[i..size][down] == s[i..][down];
      a[i] := a[i + down];
      i := i + 1;
    }
  }

  /** A 16-bit big-endian field. */
  method PutU16be(a: array<byte>, offset: nat, n: nat)
    requires offset + 2 <= a.Length
    modifies a
    ensures a[..offset] == old(a[..offset]) && a[offset..offset + 2] == U16be(n)
      && a[offset + 2..] == old(a[offset + 2..])
  {
    a[offset] := Low8(n / 0x100);
    a[offset + 1] := Low8(n);
    assert a[offset..offset + 2] == [a[offset], a[offset + 1]];
  }

  /** Moves the data up and writes the envelope around it: `head` in front, `tail` behind. */
  method Surround(data: array<byte>, size: nat, head: bytes, tail: bytes) returns (a: array<byte>, n: nat)
    requires size <= data.Length
    modifies data
    ensures n <= a.Length && a[..n] == head + old(data[..size]) + tail
    ensures a == data || fresh(a)
  {
    ghost var s := data[..size];
    var k := |head|;
    n := k + size + |tail|;
    a := Grow(data, size, n);
    MoveUp(a, size, k);
    assert a[k..][..size] == a[k..k + size] == s;
    Store(a, 0, head);
    assert a[k..k + size] == a[k..][..size];
    assert a[..k + size] == a[0..0 + k] + a[k..k + size];
    Append(a, k + size, tail);
  }

  /** `memcpy(a + offset, b, |b|)` behind the bytes already written. */
  method Append(a: array<byte>, offset: nat, b: bytes)
    requires offset + |b| <= a.Length
    modifies a
    ensures a[..offset + |b|] == old(a[..offset]) + b
  {
    Store(a, offset, b);
    assert a[..offset + |b|] == a[..offset] + a[offset..offset + |b|];
  }

  /** `malloc` and `memcpy` of `a[start..end]`. */
  method CopyOut(a: array<byte>, start: nat, end: nat) returns (b: array<byte>)
    requires start <= end <= a.Length
    ensures fresh(b) && b[..] == a[start..end]
  {
    b := new byte[end - start](_ => 0);
    Store(b, 0, a[start..end]);
    assert b[..] == b[0..0 + (end - start)];
  }
}
