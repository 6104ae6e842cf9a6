/** Types shared by every part of the model. */
module Common {

  datatype Option<+T> = None | Some(value: T)

  /** An unsigned 8-bit value (`std::uint8_t`, `unsigned char`). */
  type Byte = n: nat | n < 256

  /** `size_t` on x64. Arithmetic in this type has to be shown not to wrap. */
  newtype Size = n: int | 0 <= n < 0x1_0000_0000_0000_0000

  /** No `std::vector` holds more elements than this (`PTRDIFF_MAX`). */
  const MAX_VECTOR: nat := 0x7FFF_FFFF_FFFF_FFFF

  function Get<K, V>(m: map<K, V>, k: K): Option<V> {
    if k in m then Some(m[k]) else None
  }

  lemma MapsAgree<K(!new), V>(a: map<K, V>, b: map<K, V>)
    requires forall k :: Get(a, k) == Get(b, k)
    ensures a == b
  {
    assert forall k :: k in a <==> Get(a, k).Some?;
    assert forall k :: k in b <==> Get(b, k).Some?;
    assert forall k | k in a :: a[k] == Get(a, k).value && b[k] == Get(b, k).value;
  }

  function Last<T>(s: seq<T>): T
    requires s != []
  {
    s[|s| - 1]
  }

  function ButLast<T>(s: seq<T>): seq<T>
    requires s != []
  {
    s[..|s| - 1]
  }

  lemma Assoc<T>(a: seq<T>, b: seq<T>, c: seq<T>)
    ensures a + (b + c) == a + b + c
  {
  }

  lemma SplitFrom<T>(s: seq<T>, from: nat, mid: nat)
    requires from <= mid <= |s|
    ensures s[from..] == s[from..mid] + s[mid..]
  {
  }

  lemma SplitRange<T>(s: seq<T>, from: nat, mid: nat, to: nat)
    requires from <= mid <= to <= |s|
    ensures s[from..to] == s[from..mid] + s[mid..to]
  {
  }
}
