/** Block header words: a size with the block type in its two low bits. */
module Tags {
  import opened Sizes

  /** Addresses of block headers. */
  type Addr = int

  datatype Kind = Free | Used | Guard

  /** `_size` and `_prev` of a block header, split into size and type. */
  datatype Tag = Tag(n: nat, kind: Kind)

  /** ZEND_MM_MARK_FIRST_BLOCK stores the bare guard type in `_prev`. */
  const FIRST: Tag := Tag(0, Guard)
  const GUARD: Tag := Tag(HEADER, Guard)

  function KindBits(k: Kind): nat {
    match k
    case Free => 0
    case Used => 1
    case Guard => 3
  }

  /** The stored word: `type | size`. */
  function Word(t: Tag): nat {
    t.n + KindBits(t.kind)
  }

  /** `word & ~ZEND_MM_TYPE_MASK` and `word & ZEND_MM_TYPE_MASK`. */
  function Unword(w: nat): Tag {
    Tag(w - w % 4, if w % 4 == 0 then Free else if w % 4 == 1 then Used else Guard)
  }

  /** Aligned sizes leave the type bits alone, so the stored word keeps both parts. */
  lemma WordRoundTrip(t: Tag)
    requires t.n % 8 == 0
    ensures Unword(Word(t)) == t
    ensures t.kind == Free <==> Word(t) % 2 == 0
  {
    var q, w, k := t.n / 8, Word(t), KindBits(t.kind);
    assert w == 8 * q + k;
    Fours(q, k);
  }

  lemma Fours(q: nat, k: nat)
    requires k < 4
    ensures (8 * q + k) % 4 == k && (8 * q + k) % 2 == k % 2
  {
  }
}
