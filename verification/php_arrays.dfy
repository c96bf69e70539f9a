/**
  PHP's ordered arrays, as far as `$values[$key] = $value` needs them: the
  normalisation a scalar undergoes when used as an array key, and
  assignment, which overwrites an existing key in place and otherwise
  appends at the end.
 */
module PhpArrays {
  import opened Wrappers
  import opened PhpValues

  /** After normalisation an array key is an integer or a string. */
  datatype ArrayKey = IntKey(n: int) | StrKey(s: string)

  // ---------------------------------------------------------------------
  // Decimal digit strings
  // ---------------------------------------------------------------------

  predicate IsDigit(c: char) {
    '0' <= c <= '9'
  }

  predicate AllDigits(s: string) {
    forall i :: 0 <= i < |s| ==> IsDigit(s[i])
  }

  /** Non-empty, only digits, and no superfluous leading zero. */
  predicate IsCanonicalDigits(s: string) {
    |s| > 0 && AllDigits(s) && (s[0] == '0' ==> |s| == 1)
  }

  function DigitValue(c: char): nat
    requires IsDigit(c)
  {
    c as int - '0' as int
  }

  function DigitChar(d: nat): char
    requires d < 10
  {
    ('0' as int + d) as char
  }

  /** The number a digit string spells in base ten. */
  function ParseDigits(s: string): nat
    requires AllDigits(s)
  {
    if |s| == 0 then 0 else ParseDigits(s[..|s| - 1]) * 10 + DigitValue(s[|s| - 1])
  }

  /** The shortest base-ten spelling of a natural number. */
  function ShowNat(n: nat): (s: string)
    ensures IsCanonicalDigits(s)
    ensures s[0] == '0' <==> n == 0
  {
    if n < 10 then [DigitChar(n)] else ShowNat(n / 10) + [DigitChar(n % 10)]
  }

  /** How PHP prints an integer: an optional minus sign, then `ShowNat`. */
  function ShowInt(i: int): string {
    if i < 0 then "-" + ShowNat(-i) else ShowNat(i)
  }

  /**
    The integer a string stands for when PHP would use it as an integer
    array key: `0`, or an optional `-` followed by digits that do not start
    with `0`, whose value fits a 64-bit `int`. `"-0"`, `"007"`, `"+1"`,
    `" 1"` and `"1.0"` stay strings.
   */
  function IntegerKeyOf(s: string): (r: Option<int>)
    ensures r.Some? ==> MinInt64 <= r.value <= MaxInt64
  {
    if |s| > 0 && s[0] == '-' then
      var d := s[1..];
      if IsCanonicalDigits(d) && d[0] != '0' && ParseDigits(d) <= -MinInt64
      then Some(0 - ParseDigits(d) as int) else None
    else if IsCanonicalDigits(s) && ParseDigits(s) <= MaxInt64
    then Some(ParseDigits(s) as int)
    else None
  }

  /**
    The key an array assignment `$a[$v] = ...` actually uses: integers are
    kept, booleans become 0 or 1, null becomes the empty string, and a
    string that spells a 64-bit integer in canonical form becomes that
    integer.
   */
  function ToArrayKey(v: Value): (k: ArrayKey)
    ensures k.IntKey? ==> MinInt64 <= k.n <= MaxInt64
    ensures v.Int? ==> k == IntKey(v.i as int)
    ensures v.Bool? ==> k.IntKey? && (k.n == 1 <==> v.b) && (k.n == 0 <==> !v.b)
    ensures v.Null? ==> k == StrKey("")
    ensures v.Str? && k.StrKey? ==> k.s == v.s
  {
    match v
    case Null => StrKey("")
    case Bool(b) => IntKey(if b then 1 else 0)
    case Int(i) => IntKey(i as int)
    case Str(s) =>
      match IntegerKeyOf(s)
      case Some(n) => IntKey(n)
      case None => StrKey(s)
  }

  // ---------------------------------------------------------------------
  // Ordered arrays
  // ---------------------------------------------------------------------

  /** An ordered PHP array: key/value pairs in insertion order. */
  datatype PhpArray = PhpArray(entries: seq<(ArrayKey, Value)>)

  const EmptyArray: PhpArray := PhpArray([])

  /** Every key occurs at most once; every array PHP builds has this. */
  predicate DistinctKeys(a: PhpArray) {
    forall i, j :: 0 <= i < j < |a.entries| ==> a.entries[i].0 != a.entries[j].0
  }

  /** The keys occurring in a list of pairs. */
  function PairKeys(pairs: seq<(ArrayKey, Value)>): set<ArrayKey> {
    set i | 0 <= i < |pairs| :: pairs[i].0
  }

  function Keys(a: PhpArray): set<ArrayKey> {
    PairKeys(a.entries)
  }

  /** Position of the first pair carrying key `k`. */
  function IndexOf(entries: seq<(ArrayKey, Value)>, k: ArrayKey): (r: Option<nat>)
    ensures r.Some? ==> r.value < |entries| && entries[r.value].0 == k
    ensures r.Some? ==> forall j :: 0 <= j < r.value ==> entries[j].0 != k
    ensures r.None? ==> forall j :: 0 <= j < |entries| ==> entries[j].0 != k
  {
    if |entries| == 0 then None
    else if entries[0].0 == k then Some(0)
    else match IndexOf(entries[1..], k)
      case Some(i) => Some(i + 1)
      case None => None
  }

  /** `$a[$k] ?? null` for an already normalised key. */
  function Get(a: PhpArray, k: ArrayKey): (r: Option<Value>)
    ensures r.Some? <==> k in Keys(a)
    ensures DistinctKeys(a) ==>
      forall i :: 0 <= i < |a.entries| && a.entries[i].0 == k ==> r == Some(a.entries[i].1)
  {
    match IndexOf(a.entries, k)
    case Some(i) => Some(a.entries[i].1)
    case None => assert k !in Keys(a); None
  }

  /**
    `$a[$k] = $v`: an existing key keeps its place and gets the new value,
    a new key is appended.
   */
  function Assign(a: PhpArray, k: ArrayKey, v: Value): (r: PhpArray)
    requires DistinctKeys(a)
    ensures DistinctKeys(r)
    ensures Keys(r) == Keys(a) + {k}
    ensures Get(r, k) == Some(v)
    ensures forall k' :: k' != k ==> Get(r, k') == Get(a, k')
    ensures k !in Keys(a) ==> r.entries == a.entries + [(k, v)]
    ensures k in Keys(a) ==> |r.entries| == |a.entries|
    ensures k in Keys(a) ==> forall j :: 0 <= j < |a.entries| ==> r.entries[j].0 == a.entries[j].0
  {
    match IndexOf(a.entries, k)
    case Some(i) =>
      var r := PhpArray(a.entries[i := (k, v)]);
      assert Keys(r) == Keys(a) + {k} by {
        forall x | x in Keys(a) ensures x in Keys(r) {
          var j :| 0 <= j < |a.entries| && a.entries[j].0 == x;
          assert r.entries[j].0 == x;
        }
      }
      assert Get(r, k) == Some(v) by {
        assert r.entries[i] == (k, v);
      }
      r
    case None =>
      var r := PhpArray(a.entries + [(k, v)]);
      assert Keys(r) == Keys(a) + {k} by {
        assert r.entries[|a.entries|].0 == k;
        forall x | x in Keys(a) ensures x in Keys(r) {
          var j :| 0 <= j < |a.entries| && a.entries[j].0 == x;
          assert r.entries[j].0 == x;
        }
      }
      assert k !in Keys(a);
      assert Get(r, k) == Some(v) by {
        assert r.entries[|a.entries|] == (k, v);
      }
      r
  }

  /** An array with distinct keys has as many entries as keys. */
  lemma {:induction false} EntryCountIsKeyCount(a: PhpArray)
    requires DistinctKeys(a)
    ensures |a.entries| == |Keys(a)|
    decreases |a.entries|
  {
    if |a.entries| > 0 {
      var init := PhpArray(a.entries[..|a.entries| - 1]);
      var last := a.entries[|a.entries| - 1];
      EntryCountIsKeyCount(init);
      PairKeysOfPrefix(a.entries);
      assert last.0 !in Keys(init);
    }
  }

  /** `$a[$k] = $v` for each pair in turn, starting from an empty array. */
  function StoreAll(pairs: seq<(ArrayKey, Value)>): (r: PhpArray)
    ensures DistinctKeys(r)
    ensures |r.entries| <= |pairs|
  {
    if |pairs| == 0 then EmptyArray
    else
      var last := pairs[|pairs| - 1];
      Assign(StoreAll(pairs[..|pairs| - 1]), last.0, last.1)
  }

  /** No key occurs twice among the pairs. */
  predicate DistinctPairKeys(pairs: seq<(ArrayKey, Value)>) {
    forall i, j :: 0 <= i < j < |pairs| ==> pairs[i].0 != pairs[j].0
  }

  /** The stored keys are exactly the keys of the pairs. */
  lemma {:induction false} StoreAllKeys(pairs: seq<(ArrayKey, Value)>)
    ensures Keys(StoreAll(pairs)) == PairKeys(pairs)
  {
    if |pairs| > 0 {
      var init := pairs[..|pairs| - 1];
      var last := pairs[|pairs| - 1];
      StoreAllKeys(init);
      var prev := StoreAll(init);
      assert StoreAll(pairs) == Assign(prev, last.0, last.1);
      PairKeysOfPrefix(pairs);
    }
  }

  /** Dropping the last pair drops its key from the key set, unless an earlier pair has it too. */
  lemma PairKeysOfPrefix(pairs: seq<(ArrayKey, Value)>)
    requires |pairs| > 0
    ensures PairKeys(pairs) == PairKeys(pairs[..|pairs| - 1]) + {pairs[|pairs| - 1].0}
  {
  }

  /** A key holds the value of the last pair carrying it: later writes overwrite. */
  lemma {:induction false} StoreAllLastWins(pairs: seq<(ArrayKey, Value)>, i: nat)
    requires i < |pairs|
    requires forall j :: i < j < |pairs| ==> pairs[j].0 != pairs[i].0
    ensures Get(StoreAll(pairs), pairs[i].0) == Some(pairs[i].1)
  {
    if i < |pairs| - 1 {
      var init := pairs[..|pairs| - 1];
      assert init[i] == pairs[i];
      StoreAllLastWins(init, i);
    }
  }

  /** With distinct keys, the array holds the pairs themselves, in order. */
  lemma {:induction false} StoreAllInOrder(pairs: seq<(ArrayKey, Value)>)
    requires DistinctPairKeys(pairs)
    ensures StoreAll(pairs).entries == pairs
  {
    if |pairs| > 0 {
      var init := pairs[..|pairs| - 1];
      var last := pairs[|pairs| - 1];
      StoreAllInOrder(init);
      StoreAllKeys(init);
      assert last.0 !in Keys(StoreAll(init));
      assert init + [last] == pairs;
    }
  }

  /** Where key `k` first occurs among the pairs; the length when it does not occur. */
  function FirstPos(pairs: seq<(ArrayKey, Value)>, k: ArrayKey): (r: nat)
    ensures r <= |pairs|
    ensures r < |pairs| <==> k in PairKeys(pairs)
    ensures r < |pairs| ==> pairs[r].0 == k
    ensures forall j :: 0 <= j < r ==> pairs[j].0 != k
  {
    match IndexOf(pairs, k)
    case Some(i) => i
    case None => |pairs|
  }

  /** Appending a pair moves no key's first occurrence, and a new key first occurs at the end. */
  lemma FirstPosSnoc(pairs: seq<(ArrayKey, Value)>, k: ArrayKey)
    requires |pairs| > 0
    ensures k in PairKeys(pairs[..|pairs| - 1]) ==> FirstPos(pairs, k) == FirstPos(pairs[..|pairs| - 1], k)
    ensures k !in PairKeys(pairs[..|pairs| - 1]) && k == pairs[|pairs| - 1].0 ==> FirstPos(pairs, k) == |pairs| - 1
  {
    var init := pairs[..|pairs| - 1];
    var i := FirstPos(init, k);
    if k in PairKeys(init) {
      assert pairs[i] == init[i];
    }
  }

  /**
    Keys stay where they were first assigned: the array lists its keys in
    the order of their first occurrence among the pairs, even when later
    pairs overwrite their values.
   */
  lemma {:induction false} StoreAllFirstOccurrenceOrder(pairs: seq<(ArrayKey, Value)>)
    ensures forall p, q :: 0 <= p < q < |StoreAll(pairs).entries| ==>
      FirstPos(pairs, StoreAll(pairs).entries[p].0) < FirstPos(pairs, StoreAll(pairs).entries[q].0)
  {
    if |pairs| > 0 {
      var init := pairs[..|pairs| - 1];
      var last := pairs[|pairs| - 1];
      var prev := StoreAll(init);
      var r := StoreAll(pairs);
      StoreAllFirstOccurrenceOrder(init);
      StoreAllKeys(init);
      assert r == Assign(prev, last.0, last.1);
      forall p, q | 0 <= p < q < |r.entries|
        ensures FirstPos(pairs, r.entries[p].0) < FirstPos(pairs, r.entries[q].0)
      {
        if last.0 in Keys(prev) {
          assert r.entries[p].0 == prev.entries[p].0 && r.entries[q].0 == prev.entries[q].0;
          assert prev.entries[p].0 in Keys(prev) && prev.entries[q].0 in Keys(prev);
          FirstPosSnoc(pairs, prev.entries[p].0);
          FirstPosSnoc(pairs, prev.entries[q].0);
        } else {
          assert r.entries == prev.entries + [(last.0, last.1)];
          assert r.entries[p] == prev.entries[p];
          assert prev.entries[p].0 in Keys(prev);
          FirstPosSnoc(pairs, prev.entries[p].0);
          if q < |prev.entries| {
            assert r.entries[q] == prev.entries[q];
            assert prev.entries[q].0 in Keys(prev);
            FirstPosSnoc(pairs, prev.entries[q].0);
          } else {
            FirstPosSnoc(pairs, last.0);
          }
        }
      }
    }
  }

  /** Every pair carrying a later key of the array is preceded by a pair carrying an earlier key. */
  lemma StoreAllKeyPrecedence(pairs: seq<(ArrayKey, Value)>, p: nat, q: nat, i: nat)
    requires p < q < |StoreAll(pairs).entries|
    requires i < |pairs| && pairs[i].0 == StoreAll(pairs).entries[q].0
    ensures exists j :: 0 <= j < i && pairs[j].0 == StoreAll(pairs).entries[p].0
  {
    var entries := StoreAll(pairs).entries;
    StoreAllFirstOccurrenceOrder(pairs);
    assert FirstPos(pairs, entries[p].0) < FirstPos(pairs, entries[q].0) <= i;
    assert pairs[FirstPos(pairs, entries[p].0)].0 == entries[p].0;
  }

  /** Assigning `k0`, `k1`, then `k0` again leaves `k0` first, with its new value. */
  lemma OverwriteInPlace(k0: ArrayKey, k1: ArrayKey, v0: Value, v1: Value, v2: Value)
    requires k0 != k1
    ensures Assign(Assign(Assign(EmptyArray, k0, v0), k1, v1), k0, v2).entries == [(k0, v2), (k1, v1)]
  {
    var one := Assign(EmptyArray, k0, v0);
    var two := Assign(one, k1, v1);
    var three := Assign(two, k0, v2);
    assert one.entries == [(k0, v0)];
    assert two.entries == [(k0, v0), (k1, v1)];
    assert two.entries[0].0 == k0;
    assert three.entries[0].0 == k0 && three.entries[1].0 == k1;
    assert Get(three, k1) == Get(two, k1);
  }

  /** `StoreAll` over three pairs is three assignments in a row. */
  lemma StoreAllThree(pairs: seq<(ArrayKey, Value)>)
    requires |pairs| == 3
    ensures StoreAll(pairs) ==
      Assign(Assign(Assign(EmptyArray, pairs[0].0, pairs[0].1), pairs[1].0, pairs[1].1), pairs[2].0, pairs[2].1)
  {
    var p1, p2 := pairs[..1], pairs[..2];
    assert p1[..0] == [] && p1[0] == pairs[0];
    assert StoreAll(p1) == Assign(EmptyArray, pairs[0].0, pairs[0].1);
    assert p2[..1] == p1 && p2[1] == pairs[1];
    assert StoreAll(p2) == Assign(StoreAll(p1), pairs[1].0, pairs[1].1);
    assert pairs[..2] == p2;
    assert StoreAll(pairs) == Assign(StoreAll(p2), pairs[2].0, pairs[2].1);
  }

  /** A repeated key keeps the place of its first assignment and takes the last value. */
  lemma StoreAllOverwriteInPlace(pairs: seq<(ArrayKey, Value)>)
    requires |pairs| == 3 && pairs[0].0 == pairs[2].0 && pairs[0].0 != pairs[1].0
    ensures StoreAll(pairs).entries == [(pairs[0].0, pairs[2].1), (pairs[1].0, pairs[1].1)]
  {
    StoreAllThree(pairs);
    OverwriteInPlace(pairs[0].0, pairs[1].0, pairs[0].1, pairs[1].1, pairs[2].1);
  }

  // ---------------------------------------------------------------------
  // Which strings collide with which integers as array keys
  // ---------------------------------------------------------------------

  lemma DigitRoundTrip(d: nat)
    requires d < 10
    ensures IsDigit(DigitChar(d)) && DigitValue(DigitChar(d)) == d
  {
  }

  lemma CharRoundTrip(c: char)
    requires IsDigit(c)
    ensures DigitChar(DigitValue(c)) == c
  {
  }

  /** Reading back the spelling of `n` gives `n`. */
  lemma {:induction false} ParseShowNat(n: nat)
    ensures ParseDigits(ShowNat(n)) == n
  {
    var s := ShowNat(n);
    if n < 10 {
      DigitRoundTrip(n);
      assert s[..|s| - 1] == [];
    } else {
      assert s[..|s| - 1] == ShowNat(n / 10);
      DigitRoundTrip(n % 10);
      ParseShowNat(n / 10);
    }
  }

  /** A digit string that does not start with `0` spells a positive number. */
  lemma {:induction false} ParseDigitsPositive(s: string)
    requires |s| > 0 && AllDigits(s) && s[0] != '0'
    ensures ParseDigits(s) > 0
  {
    if |s| > 1 {
      ParseDigitsPositive(s[..|s| - 1]);
    }
  }

  /** Spelling the number a canonical digit string denotes gives that string back. */
  lemma {:induction false} ShowParseNat(s: string)
    requires IsCanonicalDigits(s)
    ensures ShowNat(ParseDigits(s)) == s
  {
    var p := s[..|s| - 1];
    var d := DigitValue(s[|s| - 1]);
    CharRoundTrip(s[|s| - 1]);
    if |s| == 1 {
      assert ParseDigits(p) == 0;
      assert ShowNat(d) == [s[0]];
    } else {
      ParseDigitsPositive(p);
      ShowParseNat(p);
      var n := ParseDigits(s);
      assert n == ParseDigits(p) * 10 + d;
      assert n / 10 == ParseDigits(p) && n % 10 == d;
      assert s == p + [s[|s| - 1]];
    }
  }

  /**
    A string is used as the integer key `i` exactly when it is PHP's own
    spelling of `i`: `"12"` and `12` land on the same array slot, while
    `"012"` and `12` do not.
   */
  lemma StringKeyIsIntegerKeyIff(s: string, i: int64)
    ensures ToArrayKey(Str(s)) == IntKey(i as int) <==> s == ShowInt(i as int)
  {
    var n := i as int;
    if s == ShowInt(n) {
      if n < 0 {
        var d := ShowNat(-n);
        assert s[1..] == d;
        ParseShowNat(-n);
        assert IntegerKeyOf(s) == Some(n);
      } else {
        ParseShowNat(n);
        assert IntegerKeyOf(s) == Some(n);
      }
    }
    if ToArrayKey(Str(s)) == IntKey(n) {
      assert IntegerKeyOf(s) == Some(n);
      if |s| > 0 && s[0] == '-' {
        var d := s[1..];
        ShowParseNat(d);
        ParseDigitsPositive(d);
        assert s == "-" + d;
      } else {
        ShowParseNat(s);
      }
    }
  }
}
