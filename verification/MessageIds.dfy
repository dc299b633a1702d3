/** Message ids: a counter masked to 31 or 15 bits that skips zero (Api_getNextMsgid). */
module MessageIds {
  import opened Bytes

  /** One more than the mask in use. */
  function Modulus(bits16: bool): nat {
    if bits16 then 0x8000 else TWO_31
  }

  /** How many draws in a row are certain to differ. */
  function Period(bits16: bool): nat {
    Modulus(bits16) - 2
  }

  /** The id behind r. */
  function Next(r: nat, bits16: bool): nat {
    if r + 1 == Modulus(bits16) then 2 else r + 1
  }

  /** The id drawn n draws after r. */
  function Later(r: nat, n: nat, bits16: bool): nat {
    if n == 0 then r else Next(Later(r, n - 1, bits16), bits16)
  }

  lemma {:induction false} LaterClosed(r: nat, n: nat, bits16: bool)
    requires 0 < r < Modulus(bits16)
    ensures Later(r, n, bits16) ==
            if r + n < Modulus(bits16) then r + n else 2 + (r + n - Modulus(bits16)) % Period(bits16)
  {
    if n > 0 {
      LaterClosed(r, n - 1, bits16);
      if r + n > Modulus(bits16) {
        ModNext(r + n - 1 - Modulus(bits16), Period(bits16));
      }
    }
  }

  lemma ModNext(x: nat, k: nat)
    requires k > 1
    ensures (x + 1) % k == if x % k == k - 1 then 0 else x % k + 1
  {
    var q, m := x / k, x % k;
    if m == k - 1 {
      ModIs(x + 1, q + 1, 0, k);
    } else {
      ModIs(x + 1, q, m + 1, k);
    }
  }

  lemma ModIs(x: int, q: int, m: int, k: nat)
    requires k > 0 && x == q * k + m && 0 <= m < k
    ensures x % k == m
  {
    var p := x / k - q;
    assert x == x / k * k + x % k;
    assert p * k == m - x % k;
    Multiples(p, k);
  }

  lemma Multiples(p: int, k: int)
    requires k > 0
    ensures p >= 1 ==> p * k >= k
    ensures p <= -1 ==> p * k <= -k
  {
  }

  lemma {:induction false} LaterInRange(r: nat, n: nat, bits16: bool)
    requires 0 < r < Modulus(bits16)
    ensures 0 < Later(r, n, bits16) < Modulus(bits16)
  {
    if n > 0 {
      LaterInRange(r, n - 1, bits16);
    }
  }

  /** Any Period draws in a row differ. */
  lemma Distinct(r: nat, i: nat, j: nat, bits16: bool)
    requires 0 < r < Modulus(bits16) && i < j && j - i < Period(bits16)
    ensures Later(r, i, bits16) != Later(r, j, bits16)
  {
    hide Later;
    var m, k := Modulus(bits16), Period(bits16);
    LaterClosed(r, i, bits16);
    LaterClosed(r, j, bits16);
    if r + i >= m {
      ModDiffers(r + i - m, j - i, k);
    } else if r + j >= m {
      ModIs(r + j - m, 0, r + j - m, k);
    }
  }

  lemma ModDiffers(x: nat, d: nat, k: nat)
    requires 0 < d < k
    ensures x % k != (x + d) % k
  {
    var q, m := x / k, x % k;
    if m + d < k {
      ModIs(x + d, q, m + d, k);
    } else {
      ModIs(x + d, q + 1, m + d - k, k);
    }
  }

  /** And no more than that: the id comes round again after Period draws. */
  lemma ComesRound(r: nat, bits16: bool)
    requires 2 <= r < Modulus(bits16)
    ensures Later(r, Period(bits16), bits16) == r
  {
    hide Later;
    LaterClosed(r, Period(bits16), bits16);
    ModIs(r + Period(bits16) - Modulus(bits16), 0, r - 2, Period(bits16));
  }

  class Ids {
    var msgid: int
    const bits16: bool
    ghost var first: nat
    ghost var draws: nat

    /** The id of draw k. */
    ghost function At(k: nat): nat
      reads this
    {
      Later(first, k, bits16)
    }

    /** The counter, masked, is the id drawn last. */
    ghost predicate Valid()
      reads this
    {
      && 0 < msgid < TWO_31 && 0 < first < Modulus(bits16)
      && (draws > 0 ==> msgid % Modulus(bits16) == At((draws - 1) as nat))
      && (draws == 0 ==> first == Next(msgid % Modulus(bits16), bits16))
    }

    /** The part of Api_init that seeds the counter with a random number. */
    constructor (random: nat, bits16: bool)
      requires random < TWO_31
      ensures Valid() && draws == 0 && this.bits16 == bits16
      ensures first == Next((if random == 0 then 1 else random) % Modulus(bits16), bits16)
    {
      var seed := if random == 0 then 1 else random;
      msgid, this.bits16, draws := seed, bits16, 0;
      first := Next(seed % Modulus(bits16), bits16);
    }

    /** Api_getNextMsgid: never 0, within the mask, and draw number `draws`. */
    method GetNextMsgid() returns (retVal: int)
      requires Valid()
      modifies this
      ensures Valid() && draws == old(draws) + 1 && first == old(first)
      ensures retVal == At(old(draws)) && 0 < retVal < Modulus(bits16)
    {
      hide Later, Next, Modulus;
      retVal := 1 + msgid;
      if retVal == 0 {
        retVal := 2;
      }
      NextDraw(msgid, first, draws, bits16);
      msgid := retVal;
      retVal := retVal % Modulus(bits16);
      if retVal == 0 {
        msgid, retVal := 2, 2;
      }
      draws := draws + 1;
    }
  }

  /** What the counter step draws next. */
  lemma NextDraw(msgid: nat, first: nat, draws: nat, bits16: bool)
    requires 0 < msgid < TWO_31 && 0 < first < Modulus(bits16)
    requires draws > 0 ==> msgid % Modulus(bits16) == Later(first, draws - 1, bits16)
    requires draws == 0 ==> first == Next(msgid % Modulus(bits16), bits16)
    ensures var y := (msgid + 1) % Modulus(bits16);
            && Later(first, draws, bits16) == (if y == 0 then 2 else y) && 0 < Later(first, draws, bits16) < Modulus(bits16)
            && (y != 0 ==> msgid + 1 < TWO_31) && 2 % Modulus(bits16) == 2
  {
    Masked(msgid, bits16);
    LaterInRange(first, draws, bits16);
    LaterUnfolds(first, draws, bits16);
  }

  lemma LaterUnfolds(first: nat, draws: nat, bits16: bool)
    ensures Later(first, draws, bits16) == if draws == 0 then first else Next(Later(first, draws - 1, bits16), bits16)
  {
  }

  lemma Masked(x: nat, bits16: bool)
    ensures var y := (x + 1) % Modulus(bits16);
            Next(x % Modulus(bits16), bits16) == if y == 0 then 2 else y
    ensures x < TWO_31 && x + 1 >= TWO_31 ==> (x + 1) % Modulus(bits16) == 0
  {
    ModNext(x, Modulus(bits16));
  }
}
