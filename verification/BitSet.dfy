/** The sparse bit set of `internal/dhcpd/bitset.go`: a map from word index to a
    64-bit word, read and written through shifts and masks. */
module BitSets {
  import opened Bits

  const WORD_BITS := 64
  const TWO_64: nat := 0x1_0000_0000_0000_0000

  /** The bit numbers, Go's `uint64`. */
  type uint64 = n: nat | n < TWO_64

  /** A 64-bit word, least significant bit first. */
  type Word = w: seq<bool> | |w| == WORD_BITS witness ZeroWord()

  function ZeroWord(): (w: seq<bool>)
    ensures |w| == WORD_BITS
  {
    seq(WORD_BITS, i => false)
  }

  const ZERO: Word := ZeroWord()

  /** The word `1 << b`; shifting by the word size or more gives zero. */
  function OneShl(b: nat): Word {
    OneHot(WORD_BITS, b)
  }

  function And(v: Word, w: Word): Word {
    seq(WORD_BITS, i requires 0 <= i < WORD_BITS => v[i] && w[i])
  }

  function AndNot(v: Word, w: Word): Word {
    seq(WORD_BITS, i requires 0 <= i < WORD_BITS => v[i] && !w[i])
  }

  /** Masking with `1 << b` tests exactly bit b. */
  lemma MaskTestsBit(w: Word, b: nat)
    requires b < WORD_BITS
    ensures And(w, OneShl(b)) != ZERO <==> w[b]
  {
    if w[b] {
      assert And(w, OneShl(b))[b];
    } else {
      assert And(w, OneShl(b)) == ZERO;
    }
  }

  // ----- The word map -----

  predicate IsSetIn(words: map<nat, Word>, n: nat) {
    n / WORD_BITS in words && And(words[n / WORD_BITS], OneShl(n % WORD_BITS)) != ZERO
  }

  function WordAt(words: map<nat, Word>, i: nat): Word {
    if i in words then words[i] else ZERO
  }

  function SetIn(words: map<nat, Word>, n: nat, ok: bool): map<nat, Word> {
    var i := n / WORD_BITS;
    var mask := OneShl(n % WORD_BITS);
    words[i := if ok then Or(WordAt(words, i), mask) else AndNot(WordAt(words, i), mask)]
  }

  /** One write sets its own bit to the value asked and disturbs no other. */
  lemma SetInBit(words: map<nat, Word>, n: nat, ok: bool, m: nat)
    ensures IsSetIn(SetIn(words, n, ok), m) == if m == n then ok else IsSetIn(words, m)
  {
    if m / WORD_BITS == n / WORD_BITS {
      MaskTestsBit(SetIn(words, n, ok)[n / WORD_BITS], m % WORD_BITS);
      MaskTestsBit(WordAt(words, n / WORD_BITS), m % WORD_BITS);
      assert m % WORD_BITS == n % WORD_BITS <==> m == n;
    }
  }

  // ----- Any sequence of set calls -----

  datatype SetCall = SetCall(n: nat, ok: bool)

  function Replay(words: map<nat, Word>, calls: seq<SetCall>): map<nat, Word> {
    if calls == [] then words
    else SetIn(Replay(words, calls[..|calls| - 1]), calls[|calls| - 1].n, calls[|calls| - 1].ok)
  }

  /** Some call in calls is about n, and the last such call is calls[k]. */
  ghost predicate IsLastCall(calls: seq<SetCall>, n: nat, k: nat) {
    k < |calls| && calls[k].n == n && forall j :: k < j < |calls| ==> calls[j].n != n
  }

  /** After any sequence of calls from the empty set, a bit is what the last
      call for it asked, and a bit no call named is clear. */
  lemma {:induction false} ReplayIsLastCall(calls: seq<SetCall>, n: nat)
    ensures forall k: nat :: IsLastCall(calls, n, k) ==> IsSetIn(Replay(map[], calls), n) == calls[k].ok
    ensures (forall k :: 0 <= k < |calls| ==> calls[k].n != n) ==> !IsSetIn(Replay(map[], calls), n)
  {
    if calls != [] {
      var last := |calls| - 1;
      var front := calls[..last];
      ReplayIsLastCall(front, n);
      SetInBit(Replay(map[], front), calls[last].n, calls[last].ok, n);
      forall k: nat | IsLastCall(calls, n, k) && k != last
        ensures IsLastCall(front, n, k)
      {}
    }
  }

  /** The mutable set itself, refining a plain set of bit numbers. */
  class BitSet {
    var words: map<nat, Word>
    ghost var Bits: set<nat>

    ghost predicate Valid()
      reads this
    {
      forall n: nat :: n in Bits <==> IsSetIn(words, n)
    }

    constructor ()
      ensures Valid() && Bits == {}
    {
      words := map[];
      Bits := {};
    }

    method IsSet(n: uint64) returns (ok: bool)
      requires Valid()
      ensures ok <==> n in Bits
    {
      ok := IsSetIn(words, n);
    }

    method Set(n: uint64, ok: bool)
      requires Valid()
      modifies this
      ensures Valid()
      ensures Bits == if ok then old(Bits) + {n} else old(Bits) - {n}
    {
      ghost var before := words;
      var wordIdx := n / WORD_BITS;
      var bitIdx := n % WORD_BITS;
      var word := WordAt(words, wordIdx);
      if ok {
        word := Or(word, OneShl(bitIdx));
      } else {
        word := AndNot(word, OneShl(bitIdx));
      }
      words := words[wordIdx := word];
      Bits := if ok then Bits + {n} else Bits - {n};
      assert words == SetIn(before, n, ok);
      forall m: nat
        ensures m in Bits <==> IsSetIn(words, m)
      {
        SetInBit(before, n, ok, m);
      }
    }
  }
}
