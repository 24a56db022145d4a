/** Reading a bit field out of the four words of an SD card's response, which form one 128-bit number with
    the highest word first. */
module SdCard {

  const WIDTH := 32

  /** A machine word by its bits, the lowest first. */
  type Word = w: seq<bool> | |w| == WIDTH witness seq(WIDTH, _ => false)

  function Zeros(n: nat): (z: seq<bool>)
    ensures |z| == n && forall i :: 0 <= i < n ==> !z[i]
  {
    seq(n, _ => false)
  }

  function Pow2(n: nat): (p: nat)
    ensures p > 0
  {
    if n == 0 then 1 else 2 * Pow2(n - 1)
  }

  /** The number that bits stand for. */
  function Number(bits: seq<bool>): nat {
    if bits == [] then 0 else (if bits[0] then 1 else 0) + 2 * Number(bits[1..])
  }

  /** The `k` lowest bits of a number. */
  function Bits(n: nat, k: nat): (b: seq<bool>)
    ensures |b| == k
  {
    if k == 0 then [] else [n % 2 == 1] + Bits(n / 2, k - 1)
  }

  // ---------- the word operations of the code ----------

  function ShiftRight(w: Word, n: nat): Word
    requires n < WIDTH
  {
    w[n..] + Zeros(n)
  }

  function ShiftLeft(w: Word, n: nat): Word
    requires n < WIDTH
  {
    Zeros(n) + w[..WIDTH - n]
  }

  function Or(a: Word, b: Word): Word {
    seq(WIDTH, i requires 0 <= i < WIDTH => a[i] || b[i])
  }

  function And(a: Word, b: Word): Word {
    seq(WIDTH, i requires 0 <= i < WIDTH => a[i] && b[i])
  }

  /** One is subtracted in a word, so that nothing minus one gives all the bits. */
  function Mask(size: nat): Word {
    Bits((if size < WIDTH then Pow2(size) else 0) + Pow2(WIDTH) - 1, WIDTH)
  }

  /** The field of `size` bits from bit `start` of the response on: from the word that holds its lowest
      bit, and from the next word up when it straddles two. */
  function UnstuffBits(resp: seq<Word>, start: nat, size: nat): Word
    requires |resp| == 4 && 1 <= size <= WIDTH && start + size <= 4 * WIDTH
  {
    var off, shft := 3 - start / WIDTH, start % WIDTH;
    var low := ShiftRight(resp[off], shft);
    And(if size + shft > WIDTH then Or(low, ShiftLeft(resp[off - 1], (WIDTH - shft) % WIDTH)) else low,
        Mask(size))
  }

  // ---------- what it computes ----------

  function Above(low: seq<bool>, high: seq<bool>): seq<bool> {
    low + high
  }

  /** The bits of the whole response, the lowest first: they begin in its last word. */
  function ResponseBits(resp: seq<Word>): (b: seq<bool>)
    requires |resp| == 4
    ensures |b| == 4 * WIDTH
  {
    Above(resp[3], Above(resp[2], Above(resp[1], resp[0])))
  }

  lemma {:induction false} MaskBits(s: nat, k: nat, more: bool, i: nat)
    requires s <= k && i < k
    ensures Bits(Pow2(s) - 1 + (if more then Pow2(k) else 0), k)[i] <==> i < s
  {
    var n := Pow2(s) - 1 + if more then Pow2(k) else 0;
    var half := (if s > 0 then Pow2(s - 1) - 1 else 0) + if more then Pow2(k - 1) else 0;
    assert n == 2 * half + if s > 0 then 1 else 0;
    Halves(n, half, if s > 0 then 1 else 0);
    BitsHead(n, k);
    if i > 0 {
      MaskBits(if s > 0 then s - 1 else 0, k - 1, more, i - 1);
      hide Bits, Pow2;
    }
  }

  lemma Halves(n: nat, half: nat, low: nat)
    requires n == 2 * half + low && low < 2
    ensures n / 2 == half && n % 2 == low
  {
  }

  lemma BitsHead(n: nat, k: nat)
    requires k > 0
    ensures Bits(n, k)[0] == (n % 2 == 1)
    ensures forall i :: 0 < i < k ==> Bits(n, k)[i] == Bits(n / 2, k - 1)[i - 1]
  {
  }

  lemma MaskMeaning(size: nat, i: nat)
    requires 1 <= size <= WIDTH && i < WIDTH
    ensures Mask(size)[i] <==> i < size
  {
    hide Bits, Pow2;
    MaskBits(size, WIDTH, size < WIDTH, i);
  }

  lemma ShiftBits(w: Word, n: nat, i: nat)
    requires n < WIDTH && i < WIDTH
    ensures ShiftRight(w, n)[i] <==> i + n < WIDTH && w[i + n]
    ensures ShiftLeft(w, n)[i] <==> n <= i && w[i - n]
  {
  }

  /** The bits of a field are those of the response, and there are none above it. */
  lemma FieldBits(resp: seq<Word>, start: nat, size: nat, i: nat)
    requires |resp| == 4 && 1 <= size <= WIDTH && start + size <= 4 * WIDTH && i < WIDTH
    ensures UnstuffBits(resp, start, size)[i] <==> i < size && ResponseBits(resp)[start + i]
  {
    hide Mask, ShiftRight, ShiftLeft, ResponseBits;
    var q, shft := start / WIDTH, start % WIDTH;
    assert start == WIDTH * q + shft;
    MaskMeaning(size, i);
    ShiftBits(resp[3 - q], shft, i);
    if size + shft > WIDTH {
      assert shft > 0 && (WIDTH - shft) % WIDTH == WIDTH - shft;
      ShiftBits(resp[2 - q], WIDTH - shft, i);
    }
    if i < size {
      ResponseBit(resp, q, shft + i);
    }
  }

  /** Bit `k` counted from the start of word `q` from the end, up to the word above it. */
  lemma ResponseBit(resp: seq<Word>, q: nat, k: nat)
    requires |resp| == 4 && WIDTH * q + k < 4 * WIDTH && k < 2 * WIDTH
    ensures ResponseBits(resp)[WIDTH * q + k] == if k < WIDTH then resp[3 - q][k] else resp[2 - q][k - WIDTH]
  {
  }

  /** Leaving the lowest bits out divides a number, and keeping only them takes the remainder. */
  lemma {:induction false} NumberSplit(bits: seq<bool>, n: nat)
    requires n <= |bits|
    ensures Number(bits[n..]) == Number(bits) / Pow2(n)
    ensures Number(bits[..n]) == Number(bits) % Pow2(n)
  {
    NumberParts(bits, n);
    var low, high, p := Number(bits[..n]), Number(bits[n..]), Pow2(n);
    Euclid(Number(bits), high, low, p);
  }

  lemma Euclid(a: nat, q: nat, r: nat, p: nat)
    requires p > 0 && a == r + p * q && r < p
    ensures a / p == q && a % p == r
  {
    var d := a / p;
    assert a == p * d + a % p;
    assert p * (d - q) == p * d - p * q;
    AtLeast(p, d - q);
  }

  lemma AtLeast(p: int, e: int)
    requires p > 0
    ensures e >= 1 ==> p * e >= p
    ensures e <= -1 ==> p * e <= -p
  {
  }

  lemma {:induction false} NumberParts(bits: seq<bool>, n: nat)
    requires n <= |bits|
    ensures Number(bits[..n]) < Pow2(n)
    ensures Number(bits) == Number(bits[..n]) + Pow2(n) * Number(bits[n..])
  {
    if n > 0 {
      var rest := bits[1..];
      NumberParts(rest, n - 1);
      assert bits[..n] == [bits[0]] + rest[..n - 1];
      assert bits[..n][1..] == rest[..n - 1];
      assert bits[n..] == rest[n - 1..];
      NumberHead(bits);
      NumberHead(bits[..n]);
      Double(Pow2(n - 1), Number(rest[n - 1..]));
      assert Pow2(n) == 2 * Pow2(n - 1);
      hide Number, Pow2;
    } else {
      assert bits[0..] == bits;
    }
  }

  lemma NumberHead(bits: seq<bool>)
    requires bits != []
    ensures Number(bits) == (if bits[0] then 1 else 0) + 2 * Number(bits[1..])
  {
  }

  lemma Double(p: nat, x: nat)
    ensures (2 * p) * x == 2 * (p * x)
  {
  }

  lemma {:induction false} NumberPadded(bits: seq<bool>, n: nat)
    ensures Number(bits + Zeros(n)) == Number(bits)
  {
    if bits != [] {
      NumberPadded(bits[1..], n);
      assert (bits + Zeros(n))[1..] == bits[1..] + Zeros(n);
    } else if n > 0 {
      NumberPadded(bits, n - 1);
      assert bits + Zeros(n) == Zeros(n);
      assert Zeros(n)[1..] == bits + Zeros(n - 1);
    }
  }

  /** The bits that are taken from a number are those that stand for it. */
  lemma {:induction false} BitsNumber(n: nat, k: nat)
    ensures Number(Bits(n, k)) == n % Pow2(k)
  {
    if k > 0 {
      BitsNumber(n / 2, k - 1);
      NumberHead(Bits(n, k));
      BitsHead(n, k);
      assert Bits(n, k)[1..] == Bits(n / 2, k - 1);
      var p, q := Pow2(k - 1), Pow2(k);
      assert q == 2 * p;
      hide Bits, Number, Pow2;
      HalfRemainder(n, p);
    }
  }

  lemma HalfRemainder(n: nat, p: nat)
    requires p > 0
    ensures n % (2 * p) == n % 2 + 2 * (n / 2 % p)
  {
    var m := n / 2;
    var q, r := m / p, m % p;
    assert m == p * q + r;
    Double(p, q);
    Euclid(n, q, n % 2 + 2 * r, 2 * p);
  }

  /** The response as a number: its first word is the highest one. */
  lemma ResponseNumber(resp: seq<Word>)
    requires |resp| == 4
    ensures Number(ResponseBits(resp)) ==
            Number(resp[3]) + 0x1_0000_0000 * (Number(resp[2]) + 0x1_0000_0000 *
              (Number(resp[1]) + 0x1_0000_0000 * Number(resp[0])))
  {
    NumberAbove(resp[1], resp[0]);
    NumberAbove(resp[2], Above(resp[1], resp[0]));
    NumberAbove(resp[3], Above(resp[2], Above(resp[1], resp[0])));
    hide Number, Above;
  }

  lemma NumberAbove(low: Word, high: seq<bool>)
    ensures Number(Above(low, high)) == Number(low) + 0x1_0000_0000 * Number(high)
  {
    NumberParts(Above(low, high), 32);
    assert Above(low, high)[..32] == low && Above(low, high)[32..] == high;
    Pow2Of32();
    hide Number, Pow2;
  }

  lemma Pow2Of32()
    ensures Pow2(32) == 0x1_0000_0000
  {
    assert Pow2(8) == 256;
    assert Pow2(16) == 0x1_0000;
    assert Pow2(24) == 0x100_0000;
  }

  /** The field, read as a number, is the response shifted down by `start` and cut to `size` bits, for
      every response and every field inside it. */
  lemma UnstuffMeaning(resp: seq<Word>, start: nat, size: nat)
    requires |resp| == 4 && 1 <= size <= WIDTH && start + size <= 4 * WIDTH
    ensures Number(UnstuffBits(resp, start, size))
         == Number(ResponseBits(resp)) / Pow2(start) % Pow2(size)
  {
    hide UnstuffBits, ResponseBits, Number, Pow2;
    var all := ResponseBits(resp);
    var field := all[start..][..size];
    assert UnstuffBits(resp, start, size) == field + Zeros(WIDTH - size) by {
      forall i | 0 <= i < WIDTH
        ensures UnstuffBits(resp, start, size)[i] == (field + Zeros(WIDTH - size))[i]
      {
        FieldBits(resp, start, size, i);
      }
    }
    NumberPadded(field, WIDTH - size);
    NumberSplit(all, start);
    NumberSplit(all[start..], size);
  }
}
