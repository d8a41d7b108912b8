/**
 BigInteger: an unsigned integer that grows, borrows and trims its words in place.
 */
module BigIntegers {
  import opened Words

  class BigInteger {
    /** Lower index, lower bits. */
    var value: seq<uint64>

    ghost predicate Valid()
      reads this
    {
      0 < |value|
    }

    constructor FromWord(v: uint64)
      ensures Valid() && value == [v]
    {
      value := [v];
    }

    /** Zero words on top are dropped; of a zero, one word stays. */
    constructor FromWords(v: seq<uint64>)
      requires 0 < |v|
      ensures Valid() && Trimmed(value) && value <= v && Number(value) == Number(v)
    {
      var endIndex := 0;
      var k := |v|;
      while k > 0
        invariant 0 <= k <= |v| && endIndex == 0
        invariant forall j :: k <= j < |v| ==> v[j] == 0
      {
        if v[k - 1] != 0 {
          endIndex := k - 1;
          break;
        }
        k := k - 1;
      }
      value := v[..endIndex + 1];
      new;
      PrefixZeros(v, endIndex + 1, |v|);
      PrefixAgrees(value, v, endIndex + 1);
    }

    constructor Copy(other: BigInteger)
      requires other.Valid()
      ensures Valid() && value == other.value
    {
      value := other.value;
    }

    method Add(i: uint64, index: nat)
      requires Valid()
      modifies this
      ensures Valid() && value == Added(old(value), i, index)
    {
      while |value| - 1 < index
        invariant Valid() && old(value) <= value
        invariant |value| <= |Extended(old(value), index)|
        invariant value == Extended(old(value), index)[..|value|]
      {
        value := value + [0];
      }
      assert value == Extended(old(value), index);
      var newValue := AddWrapped(value[index], i);
      var isCarry := newValue < value[index] && newValue < i;
      if !isCarry {
        value := value[index := newValue];
        return;
      }
      value := value[index := newValue];
      if |value| == index + 1 {
        value := value + [1];
        return;
      }
      CarryOn(index + 1);
    }

    /** The carry loop of add. */
    method CarryOn(start: nat)
      requires Valid() && start < |value|
      modifies this
      ensures Valid() && value == Ripple(old(value), start)
    {
      var k := start;
      while k < |value|
        invariant start <= k <= |value|
        invariant Valid() && (Ripple(value, k) == Ripple(old(value), start))
        decreases |value| - k, if k < |value| && value[k] == MAX then 1 else 0
      {
        if value[k] == MAX {
          if k == |value| - 1 {
            value := value + [0];
            value := value[k := 0];
            assert Ripple(value, k + 1) == value[k + 1 := 1];
          }
        } else {
          value := value[k := value[k] + 1];
          assert value == Ripple(old(value), start);
          break;
        }
        k := k + 1;
      }
    }

    method Subtract(i: uint64, index: nat)
      requires Valid() && index < |value|
      modifies this
      ensures Valid() && value == Subtracted(old(value), i, index)
    {
      var newValue := SubWrapped(value[index], i);
      var isCarry := value[index] < i;
      value := value[index := newValue];
      if isCarry {
        BorrowOn(index + 1);
      }
      TrimTop();
    }

    method BorrowOn(start: nat)
      requires Valid() && start <= |value|
      modifies this
      ensures Valid() && value == Borrow(old(value), start)
    {
      var k := start;
      while k < |value|
        invariant start <= k <= |value| && Valid()
        invariant Borrow(value, k) == Borrow(old(value), start)
      {
        if value[k] == 0 {
          value := value[k := SubWrapped(value[k], 1)];
        } else {
          value := value[k := value[k] - 1];
          assert value == Borrow(old(value), start);
          break;
        }
        k := k + 1;
      }
    }

    method TrimTop()
      requires Valid()
      modifies this
      ensures Valid() && value == Trim(old(value))
    {
      var k := |value|;
      while k > 0
        invariant 0 <= k <= |value| && value == old(value)
        invariant TopNonzero(value, k) == TopNonzero(value, |value|)
      {
        if value[k - 1] != 0 {
          value := value[..k];
          break;
        }
        k := k - 1;
      }
    }

    /** operator+=, which copies its operand first, so that a += a is sound. */
    method PlusAssign(other: BigInteger)
      requires Valid() && other.Valid()
      modifies this
      ensures Valid() && value == AddedAll(old(value), old(other.value), |old(other.value)|)
    {
      var b := other.value;
      for k := 0 to |b|
        invariant Valid() && value == AddedAll(old(value), b, k)
      {
        Add(b[k], k);
      }
    }

    method MinusAssign(other: BigInteger)
      requires Valid() && other.Valid() && IndexesInside(value, other.value)
      modifies this
      ensures Valid() && value == SubtractedAll(old(value), old(other.value), |old(other.value)|)
    {
      hide Subtracted;
      var b := other.value;
      for k := 0 to |b|
        invariant Valid() && value == SubtractedAll(old(value), b, k)
      {
        Subtract(b[k], k);
      }
    }

    /** operator+: the same on a copy. */
    method Plus(other: BigInteger) returns (sum: BigInteger)
      requires Valid() && other.Valid()
      ensures fresh(sum) && sum.Valid() && sum.value == AddedAll(value, other.value, |other.value|)
    {
      sum := new BigInteger.Copy(this);
      sum.PlusAssign(other);
    }

    method Minus(other: BigInteger) returns (difference: BigInteger)
      requires Valid() && other.Valid() && IndexesInside(value, other.value)
      ensures fresh(difference) && difference.Valid()
      ensures difference.value == SubtractedAll(value, other.value, |other.value|)
    {
      difference := new BigInteger.Copy(this);
      difference.MinusAssign(other);
    }
  }
}
