/** The table of configuration values: open addressing with linear probing that
    wraps around, in an array of fixed size. */
module ConfigTable {
  import opened Basics

  const MAX_SIZE := 100

  /** A C string without its terminator. */
  type Key = seq<Byte>

  datatype Slot<V> = Slot(key: Key, value: Option<V>)

  // ----- hashing --------------------------------------------------------------

  /** One character, which is signed, into an unsigned 32-bit accumulator. */
  function Mixed(h: nat, c: Byte): (r: nat)
    ensures r < 0x1_0000_0000
  {
    (h * 33 + if c < 128 then c else c - 256) % 0x1_0000_0000
  }

  function HashFrom(h: nat, key: Key): nat
    decreases |key|
  {
    if key == [] then h else HashFrom(Mixed(h, key[0]), key[1..])
  }

  function Hash(key: Key): (h: nat)
    ensures h < MAX_SIZE
  {
    HashFrom(0, key) % MAX_SIZE
  }

  method ComputeHash(key: Key) returns (h: nat)
    ensures h == Hash(key)
  {
    h := 0;
    for i := 0 to |key|
      invariant HashFrom(h, key[i..]) == HashFrom(0, key)
    {
      assert key[i..][1..] == key[i + 1..];
      h := Mixed(h, key[i]);
    }
    h := h % MAX_SIZE;
  }

  function Pow33(n: nat): nat {
    if n == 0 then 1 else 33 * Pow33(n - 1)
  }

  function SignedChar(c: Byte): (r: int)
    ensures -128 <= r < 128
  {
    if c < 128 then c as int else c as int - 256
  }

  /** The characters, as signed numbers, read as digits to the base 33. */
  function Digits(key: Key): int {
    if key == [] then 0 else SignedChar(key[0]) * Pow33(|key| - 1) + Digits(key[1..])
  }

  lemma {:induction false} WrapsOnce(x: int, p: nat, v: int)
    ensures (x % 0x1_0000_0000 * p + v) % 0x1_0000_0000 == (x * p + v) % 0x1_0000_0000
  {
    var low, q := x % 0x1_0000_0000, x / 0x1_0000_0000;
    assert x == q * 0x1_0000_0000 + low;
    assert x * p == low * p + q * p * 0x1_0000_0000 by {
      assert (q * 0x1_0000_0000 + low) * p == q * 0x1_0000_0000 * p + low * p;
    }
    WholeLaps(low * p + v, q * p);
  }

  lemma {:induction false} WholeLaps(a: int, k: int)
    ensures (a + k * 0x1_0000_0000) % 0x1_0000_0000 == a % 0x1_0000_0000
  {
  }

  lemma {:induction false} FirstCharacter(h: nat, key: Key) returns (c: int, p: nat)
    requires key != []
    ensures c == SignedChar(key[0])
    ensures p == Pow33(|key| - 1) && Pow33(|key|) == 33 * p && Digits(key) == c * p + Digits(key[1..])
    ensures Mixed(h, key[0]) == (h * 33 + c) % 0x1_0000_0000
    ensures HashFrom(h, key) == HashFrom(Mixed(h, key[0]), key[1..])
  {
    c, p := SignedChar(key[0]), Pow33(|key| - 1);
  }

  lemma {:induction false} Distribute(h: int, c: int, p: int, d: int)
    ensures (h * 33 + c) * p + d == h * (33 * p) + (c * p + d)
  {
    assert (h * 33 + c) * p == h * 33 * p + c * p;
  }

  lemma {:induction false} HashFromDigits(h: nat, key: Key)
    ensures HashFrom(h, key) % 0x1_0000_0000 == (h * Pow33(|key|) + Digits(key)) % 0x1_0000_0000
    decreases |key|
  {
    if key == [] {
      assert h * Pow33(0) + Digits([]) == h;
    } else {
      hide HashFrom, Mixed, Pow33, Digits;
      var c, p := FirstCharacter(h, key);
      HashFromDigits(Mixed(h, key[0]), key[1..]);
      WrapsOnce(h * 33 + c, p, Digits(key[1..]));
      Distribute(h, c, p, Digits(key[1..]));
    }
  }

  lemma {:induction false} HashFits(h: nat, key: Key)
    requires h < 0x1_0000_0000
    ensures HashFrom(h, key) < 0x1_0000_0000
    decreases |key|
  {
    if key != [] {
      HashFits(Mixed(h, key[0]), key[1..]);
    }
  }

  /** Wrapping around at every character is wrapping around once: the hash is the
      key read to the base 33, as a 32-bit number, modulo a hundred. */
  lemma {:induction false} HashIsBase33(key: Key)
    ensures Hash(key) == Digits(key) % 0x1_0000_0000 % 100
  {
    HashFromDigits(0, key);
    HashFits(0, key);
    assert 0 * Pow33(|key|) == 0;
  }

  // ----- probing --------------------------------------------------------------

  /** The slot `d` steps on from slot `h`, up to once round. */
  function Step(h: nat, d: nat): (i: nat)
    requires h < MAX_SIZE && d <= MAX_SIZE
    ensures i < MAX_SIZE
  {
    if h + d < MAX_SIZE then h + d else h + d - MAX_SIZE
  }

  lemma {:induction false} StepIsModulus(h: nat, d: nat)
    requires h < MAX_SIZE && d <= MAX_SIZE
    ensures Step(h, d) == (h + d) % 100
  {
  }

  /** The steps from slot `h` to slot `i`. */
  function Distance(h: nat, i: nat): (d: nat)
    requires h < MAX_SIZE && i < MAX_SIZE
    ensures d < MAX_SIZE && Step(h, d) == i
  {
    if h <= i then i - h else i + MAX_SIZE - h
  }

  predicate Used<V>(t: seq<Slot<V>>, i: nat)
    requires i < |t|
  {
    t[i].value.Some?
  }

  predicate HasFree<V>(t: seq<Slot<V>>) {
    exists i: nat {:trigger Used(t, i)} :: i < |t| && !Used(t, i)
  }

  /** Where a search for the key stops, `d` steps on from its hash value. */
  function FindStop<V>(t: seq<Slot<V>>, key: Key, d: nat): (r: nat)
    requires |t| == MAX_SIZE && d <= MAX_SIZE
    ensures d <= r <= MAX_SIZE
    decreases MAX_SIZE - d
  {
    if d == MAX_SIZE then d
    else
      var i := Step(Hash(key), d);
      if !Used(t, i) || t[i].key == key then d else FindStop(t, key, d + 1)
  }

  /** Where an insertion stops, at most once round and back in its home slot: it
      compares keys only after its first step. A larger number: nowhere. */
  function InsertStop<V>(t: seq<Slot<V>>, key: Key, d: nat): (r: nat)
    requires |t| == MAX_SIZE && d <= MAX_SIZE + 1
    ensures d <= r <= MAX_SIZE + 1
    decreases MAX_SIZE + 1 - d
  {
    if d == MAX_SIZE + 1 then d
    else
      var i := Step(Hash(key), d);
      if !Used(t, i) || (d > 0 && t[i].key == key) then d else InsertStop(t, key, d + 1)
  }

  function Lookup<V>(t: seq<Slot<V>>, key: Key): Option<V>
    requires |t| == MAX_SIZE
  {
    var d := FindStop(t, key, 0);
    if d == MAX_SIZE then None else t[Step(Hash(key), d)].value
  }

  function Inserted<V>(t: seq<Slot<V>>, key: Key, value: V): (r: seq<Slot<V>>)
    requires |t| == MAX_SIZE
    ensures |r| == MAX_SIZE
  {
    var d := InsertStop(t, key, 0);
    if d > MAX_SIZE then t else t[Step(Hash(key), d) := Slot(key, Some(value))]
  }

  /** Used slots have non-empty keys, no key twice, and no gap between a key's
      hash value and its slot; free slots have the empty key. */
  ghost predicate WellFormed<V>(t: seq<Slot<V>>) {
    && |t| == MAX_SIZE
    && (forall i: nat {:trigger Used(t, i)} | i < MAX_SIZE ::
          if Used(t, i) then t[i].key != [] && NoGap(t, i) else t[i].key == [])
    && (forall i: nat, j: nat {:trigger Used(t, i), Used(t, j)} | i < j < MAX_SIZE && Used(t, i) && Used(t, j) ::
          t[i].key != t[j].key)
  }

  ghost predicate NoGap<V>(t: seq<Slot<V>>, i: nat)
    requires |t| == MAX_SIZE && i < MAX_SIZE
  {
    var h := Hash(t[i].key);
    forall d: nat {:trigger Step(h, d)} | d < Distance(h, i) :: Used(t, Step(h, d))
  }

  predicate HoldsAt<V>(t: seq<Slot<V>>, key: Key, i: nat) {
    i < |t| && Used(t, i) && t[i].key == key
  }

  predicate Absent<V>(t: seq<Slot<V>>, key: Key) {
    forall i: nat {:trigger HoldsAt(t, key, i)} | i < |t| :: !HoldsAt(t, key, i)
  }

  /** The key sits in the very slot it hashes to. */
  predicate AtHome<V>(t: seq<Slot<V>>, key: Key) {
    HoldsAt(t, key, Hash(key))
  }

  /** A probe for the key ends somewhere: at a free slot or at the key. */
  predicate Ends<V>(t: seq<Slot<V>>, key: Key) {
    HasFree(t) || !Absent(t, key)
  }

  // ----- searching ------------------------------------------------------------

  /** A key is found where it is, if the way there is used by other keys. */
  lemma {:induction false} FindGoesTo<V>(t: seq<Slot<V>>, key: Key, i: nat, d: nat)
    requires |t| == MAX_SIZE && HoldsAt(t, key, i) && d <= Distance(Hash(key), i)
    requires forall e: nat {:trigger Step(Hash(key), e)} | d <= e < Distance(Hash(key), i) ::
               Used(t, Step(Hash(key), e)) && t[Step(Hash(key), e)].key != key
    ensures FindStop(t, key, d) == Distance(Hash(key), i)
    decreases MAX_SIZE - d
  {
    if d < Distance(Hash(key), i) {
      var at := Step(Hash(key), d);
      FindGoesTo(t, key, i, d + 1);
    }
  }

  lemma {:induction false} FindsStored<V>(t: seq<Slot<V>>, key: Key, i: nat)
    requires WellFormed(t) && HoldsAt(t, key, i)
    ensures Lookup(t, key) == t[i].value
  {
    WayThere(t, key, i);
    FindGoesTo(t, key, i, 0);
  }

  lemma {:induction false} WayThere<V>(t: seq<Slot<V>>, key: Key, i: nat)
    requires WellFormed(t) && HoldsAt(t, key, i)
    ensures forall e: nat {:trigger Step(Hash(key), e)} | e < Distance(Hash(key), i) ::
              Used(t, Step(Hash(key), e)) && t[Step(Hash(key), e)].key != key && Step(Hash(key), e) != i
  {
    assert NoGap(t, i);
    forall e: nat | e < Distance(Hash(key), i)
      ensures Used(t, Step(Hash(key), e)) && t[Step(Hash(key), e)].key != key && Step(Hash(key), e) != i
    {
      assert Used(t, Step(Hash(key), e)) && Used(t, i);
    }
  }

  /** A search never returns the value of another key. */
  lemma {:induction false} FindsNothing<V>(t: seq<Slot<V>>, key: Key, d: nat)
    requires |t| == MAX_SIZE && Absent(t, key) && d <= MAX_SIZE
    ensures var r := FindStop(t, key, d); r < MAX_SIZE ==> !Used(t, Step(Hash(key), r))
    decreases MAX_SIZE - d
  {
    if d < MAX_SIZE {
      assert !HoldsAt(t, key, Step(Hash(key), d));
      FindsNothing(t, key, d + 1);
    }
  }

  lemma {:induction false} AbsentNotFound<V>(t: seq<Slot<V>>, key: Key)
    requires |t| == MAX_SIZE && Absent(t, key)
    ensures Lookup(t, key) == None
  {
    FindsNothing(t, key, 0);
  }

  lemma {:induction false} FindPasses<V>(t: seq<Slot<V>>, key: Key, d: nat)
    requires |t| == MAX_SIZE && d <= MAX_SIZE
    ensures var r := FindStop(t, key, d);
            r < MAX_SIZE ==> !Used(t, Step(Hash(key), r)) || t[Step(Hash(key), r)].key == key
    decreases MAX_SIZE - d
  {
    if d < MAX_SIZE && FindStop(t, key, d) > d {
      FindPasses(t, key, d + 1);
    }
  }

  lemma {:induction false} FindReaches<V>(t: seq<Slot<V>>, key: Key, i: nat, d: nat)
    requires |t| == MAX_SIZE && i < MAX_SIZE && d <= Distance(Hash(key), i)
    requires !Used(t, i) || t[i].key == key
    ensures FindStop(t, key, d) <= Distance(Hash(key), i)
    decreases MAX_SIZE - d
  {
    if d < Distance(Hash(key), i) {
      FindReaches(t, key, i, d + 1);
    }
  }

  /** The probe of a search ends exactly when a slot is free or holds the key. */
  lemma {:induction false} FindEndsExactly<V>(t: seq<Slot<V>>, key: Key)
    requires |t| == MAX_SIZE
    ensures FindStop(t, key, 0) < MAX_SIZE <==> Ends(t, key)
  {
    FindPasses(t, key, 0);
    if FindStop(t, key, 0) < MAX_SIZE {
      var i := Step(Hash(key), FindStop(t, key, 0));
      assert HoldsAt(t, key, i) || !Used(t, i);
    }
    if HasFree(t) {
      var i: nat :| i < |t| && !Used(t, i);
      FindReaches(t, key, i, 0);
    } else if !Absent(t, key) {
      var i: nat :| i < |t| && HoldsAt(t, key, i);
      FindReaches(t, key, i, 0);
    }
  }

  // ----- inserting ------------------------------------------------------------

  lemma {:induction false} InsertPasses<V>(t: seq<Slot<V>>, key: Key, d: nat)
    requires |t| == MAX_SIZE && d <= MAX_SIZE + 1
    ensures var r := InsertStop(t, key, d);
            && (r <= MAX_SIZE ==> !Used(t, Step(Hash(key), r)) || (r > 0 && t[Step(Hash(key), r)].key == key))
            && forall e: nat {:trigger Step(Hash(key), e)} | d <= e < r && e < MAX_SIZE ::
                 Used(t, Step(Hash(key), e)) && (e > 0 ==> t[Step(Hash(key), e)].key != key)
    decreases MAX_SIZE + 1 - d
  {
    if d <= MAX_SIZE && InsertStop(t, key, d) > d {
      InsertPasses(t, key, d + 1);
    }
  }

  /** Where it can stop it stops, there or before. */
  lemma {:induction false} InsertReaches<V>(t: seq<Slot<V>>, key: Key, e: nat, d: nat)
    requires |t| == MAX_SIZE && d <= e <= MAX_SIZE
    requires !Used(t, Step(Hash(key), e)) || (e > 0 && t[Step(Hash(key), e)].key == key)
    ensures InsertStop(t, key, d) <= e
    decreases e - d
  {
    if d < e {
      InsertReaches(t, key, e, d + 1);
    }
  }

  /** The probe of an insertion ends exactly when a slot is free or holds the
      key; the home slot is looked at again after a whole round. */
  lemma {:induction false} InsertEndsExactly<V>(t: seq<Slot<V>>, key: Key)
    requires |t| == MAX_SIZE
    ensures InsertStop(t, key, 0) <= MAX_SIZE <==> Ends(t, key)
  {
    var h := Hash(key);
    InsertPasses(t, key, 0);
    if InsertStop(t, key, 0) <= MAX_SIZE {
      assert HoldsAt(t, key, Step(h, InsertStop(t, key, 0))) || !Used(t, Step(h, InsertStop(t, key, 0)));
    }
    if HasFree(t) {
      var i: nat :| i < |t| && !Used(t, i);
      InsertReaches(t, key, Distance(h, i), 0);
    } else if !Absent(t, key) {
      var i: nat :| i < |t| && HoldsAt(t, key, i);
      InsertReaches(t, key, if i == h then MAX_SIZE else Distance(h, i), 0);
    }
  }

  /** The slot an insertion writes: the key's own, or a free one. A key in its
      home slot is passed over while there is a free one. */
  lemma {:induction false} WrittenSlot<V>(t: seq<Slot<V>>, key: Key) returns (i: nat)
    requires WellFormed(t) && Ends(t, key)
    ensures i < MAX_SIZE && InsertStop(t, key, 0) <= MAX_SIZE && i == Step(Hash(key), InsertStop(t, key, 0))
    ensures if Absent(t, key) || (AtHome(t, key) && HasFree(t)) then !Used(t, i) else HoldsAt(t, key, i)
    ensures forall e: nat {:trigger Step(Hash(key), e)} | e < Distance(Hash(key), i) :: Used(t, Step(Hash(key), e))
  {
    hide WellFormed;
    FormSize(t);
    InsertEndsExactly(t, key);
    InsertPasses(t, key, 0);
    var h, d := Hash(key), InsertStop(t, key, 0);
    i := Step(h, d);
    if Absent(t, key) {
      assert !HoldsAt(t, key, i);
    } else if AtHome(t, key) {
      WrittenAtHome(t, key);
    } else {
      var j: nat :| j < |t| && HoldsAt(t, key, j);
      StopsAtOwnSlot(t, key, j);
    }
  }

  lemma {:induction false} FormSize<V>(t: seq<Slot<V>>)
    requires WellFormed(t)
    ensures |t| == MAX_SIZE
  {
  }

  lemma {:induction false} WrittenAtHome<V>(t: seq<Slot<V>>, key: Key)
    requires WellFormed(t) && AtHome(t, key) && InsertStop(t, key, 0) <= MAX_SIZE
    ensures var i := Step(Hash(key), InsertStop(t, key, 0)); if HasFree(t) then !Used(t, i) else i == Hash(key)
  {
    var h, d := Hash(key), InsertStop(t, key, 0);
    var i := Step(h, d);
    InsertPasses(t, key, 0);
    assert Used(t, h);
    if HasFree(t) {
      var j: nat :| j < |t| && !Used(t, j);
      InsertReaches(t, key, Distance(h, j), 0);
      assert i != h;
    }
    assert Used(t, i) && t[i].key == t[h].key ==> i == h;
  }

  lemma {:induction false} StopsAtOwnSlot<V>(t: seq<Slot<V>>, key: Key, j: nat)
    requires WellFormed(t) && HoldsAt(t, key, j) && j != Hash(key)
    ensures InsertStop(t, key, 0) == Distance(Hash(key), j)
  {
    WayThere(t, key, j);
    InsertGoesTo(t, key, j, 0);
  }

  lemma {:induction false} InsertGoesTo<V>(t: seq<Slot<V>>, key: Key, i: nat, d: nat)
    requires |t| == MAX_SIZE && HoldsAt(t, key, i) && i != Hash(key) && d <= Distance(Hash(key), i)
    requires forall e: nat {:trigger Step(Hash(key), e)} | d <= e < Distance(Hash(key), i) ::
               Used(t, Step(Hash(key), e)) && t[Step(Hash(key), e)].key != key
    ensures InsertStop(t, key, d) == Distance(Hash(key), i)
    decreases MAX_SIZE - d
  {
    if d < Distance(Hash(key), i) {
      var at := Step(Hash(key), d);
      InsertGoesTo(t, key, i, d + 1);
    }
  }

  /** Writing a key into a free slot it can be found from, or into its own. */
  lemma {:induction false} WriteKeepsForm<V>(t: seq<Slot<V>>, key: Key, value: V, i: nat)
    requires WellFormed(t) && key != [] && i < MAX_SIZE
    requires (!Used(t, i) && Absent(t, key)) || HoldsAt(t, key, i)
    requires forall e: nat {:trigger Step(Hash(key), e)} | e < Distance(Hash(key), i) :: Used(t, Step(Hash(key), e))
    ensures WellFormed(t[i := Slot(key, Some(value))])
  {
    var r := t[i := Slot(key, Some(value))];
    forall j: nat | j < MAX_SIZE ensures Used(r, j) <==> Used(t, j) || j == i {
    }
    forall j: nat | j < MAX_SIZE
      ensures if Used(r, j) then r[j].key != [] && NoGap(r, j) else r[j].key == []
    {
      if Used(r, j) {
        assert j != i ==> Used(t, j) && NoGap(t, j);
      } else {
        assert !Used(t, j);
      }
    }
    forall j: nat, k: nat | j < k < MAX_SIZE && Used(r, j) && Used(r, k) ensures r[j].key != r[k].key {
      assert HoldsAt(t, key, i) || (!HoldsAt(t, key, j) && !HoldsAt(t, key, k));
      assert (j != i ==> Used(t, j)) && (k != i ==> Used(t, k));
    }
  }

  /** The table stays a map exactly when the key was not in its home slot, or
      no other slot was free. */
  lemma {:induction false} InsertKeepsForm<V>(t: seq<Slot<V>>, key: Key, value: V)
    requires WellFormed(t) && Ends(t, key) && key != []
    ensures WellFormed(Inserted(t, key, value)) <==> !AtHome(t, key) || !HasFree(t)
  {
    hide WellFormed, NoGap;
    FormSize(t);
    var i := WrittenSlot(t, key);
    if AtHome(t, key) && HasFree(t) {
      TwiceInTable(t, key, value, i);
    } else {
      WriteKeepsForm(t, key, value, i);
    }
  }

  lemma {:induction false} TwiceInTable<V>(t: seq<Slot<V>>, key: Key, value: V, i: nat)
    requires |t| == MAX_SIZE && AtHome(t, key) && i < MAX_SIZE && !Used(t, i)
    ensures !WellFormed(t[i := Slot(key, Some(value))])
  {
    var h, r := Hash(key), t[i := Slot(key, Some(value))];
    assert Used(t, h) && h != i;
    assert Used(r, h) && Used(r, i) && r[h].key == r[i].key;
  }

  /** What a search finds after an insertion: the new value, unless the key was
      in its home slot and another slot free, where the old value hides it. */
  lemma {:induction false} FindsInserted<V>(t: seq<Slot<V>>, key: Key, value: V)
    requires WellFormed(t) && Ends(t, key) && key != []
    ensures Lookup(Inserted(t, key, value), key)
            == if AtHome(t, key) && HasFree(t) then Lookup(t, key) else Some(value)
  {
    hide WellFormed, NoGap;
    FormSize(t);
    var i := WrittenSlot(t, key);
    var r := Inserted(t, key, value);
    if AtHome(t, key) && HasFree(t) {
      var h := Hash(key);
      assert Used(t, h) && h != i && r[h] == t[h] && Used(r, h);
      assert FindStop(t, key, 0) == 0 == FindStop(r, key, 0);
    } else {
      WriteKeepsForm(t, key, value, i);
      assert HoldsAt(r, key, i);
      FindsStored(r, key, i);
    }
  }

  /** And every other key is found, or not found, as before. */
  lemma {:induction false} FindsOthers<V>(t: seq<Slot<V>>, key: Key, value: V, other: Key)
    requires WellFormed(t) && Ends(t, key) && other != key
    ensures Lookup(Inserted(t, key, value), other) == Lookup(t, other)
  {
    hide WellFormed, NoGap;
    FormSize(t);
    var i := WrittenSlot(t, key);
    var r := Inserted(t, key, value);
    if Absent(t, other) {
      forall j: nat | j < |r| ensures !HoldsAt(r, other, j) {
        assert !HoldsAt(t, other, j);
      }
      AbsentNotFound(t, other);
      AbsentNotFound(r, other);
    } else {
      var j: nat :| j < |t| && HoldsAt(t, other, j);
      StillFound(t, r, i, other, j);
    }
  }

  lemma {:induction false} StillFound<V>(t: seq<Slot<V>>, r: seq<Slot<V>>, i: nat, other: Key, j: nat)
    requires WellFormed(t) && HoldsAt(t, other, j) && i < |t|
    requires |r| == |t| && r[i].key != other && Used(r, i) && (Used(t, i) ==> t[i].key == r[i].key)
    requires forall k: nat | k < |t| && k != i :: r[k] == t[k]
    ensures Lookup(r, other) == Lookup(t, other)
  {
    FindsStored(t, other, j);
    WayThere(t, other, j);
    hide WellFormed;
    assert HoldsAt(r, other, j);
    forall e: nat | e < Distance(Hash(other), j)
      ensures Used(r, Step(Hash(other), e)) && r[Step(Hash(other), e)].key != other
    {
      assert Used(t, Step(Hash(other), e));
    }
    FindGoesTo(r, other, j, 0);
  }

  // ----- filling a table --------------------------------------------------------

  function EmptySlots<V>(): (t: seq<Slot<V>>)
    ensures |t| == MAX_SIZE
  {
    seq(MAX_SIZE, _ => Slot([], None))
  }

  function InsertedAll<V>(t: seq<Slot<V>>, pairs: seq<(Key, V)>): (r: seq<Slot<V>>)
    requires |t| == MAX_SIZE
    ensures |r| == MAX_SIZE
    decreases |pairs|
  {
    if pairs == [] then t else InsertedAll(Inserted(t, pairs[0].0, pairs[0].1), pairs[1..])
  }

  ghost predicate DistinctKeys<V>(pairs: seq<(Key, V)>) {
    && (forall i | 0 <= i < |pairs| :: pairs[i].0 != [])
    && (forall i, j | 0 <= i < j < |pairs| :: pairs[i].0 != pairs[j].0)
  }

  /** Used slots among the first `n`. */
  function UsedCount<V>(t: seq<Slot<V>>, n: nat): (c: nat)
    requires n <= |t|
    ensures c <= n
  {
    if n == 0 then 0 else UsedCount(t, n - 1) + if Used(t, n - 1) then 1 else 0
  }

  lemma {:induction false} FewUsedLeaveFree<V>(t: seq<Slot<V>>, n: nat)
    requires n <= |t| && UsedCount(t, n) < n
    ensures HasFree(t)
  {
    if Used(t, n - 1) {
      FewUsedLeaveFree(t, n - 1);
    }
  }

  lemma {:induction false} CountAfterWrite<V>(t: seq<Slot<V>>, i: nat, s: Slot<V>, n: nat)
    requires n <= |t| && i < |t| && s.value.Some?
    ensures UsedCount(t[i := s], n) == UsedCount(t, n) + if i < n && !Used(t, i) then 1 else 0
  {
    if n > 0 {
      CountAfterWrite(t, i, s, n - 1);
    }
  }

  lemma {:induction false} InsertedLast<V>(t: seq<Slot<V>>, pairs: seq<(Key, V)>)
    requires |t| == MAX_SIZE && pairs != []
    ensures var n := |pairs| - 1;
            InsertedAll(t, pairs) == Inserted(InsertedAll(t, pairs[..n]), pairs[n].0, pairs[n].1)
    decreases |pairs|
  {
    var n := |pairs| - 1;
    if n > 0 {
      InsertedLast(Inserted(t, pairs[0].0, pairs[0].1), pairs[1..]);
      assert pairs[1..][..n - 1] == pairs[..n][1..];
    }
  }

  /** A table with no key in it. */
  lemma {:induction false} EmptyIsMap<V>(key: Key)
    ensures var t: seq<Slot<V>> := EmptySlots();
            WellFormed(t) && HasFree(t) && UsedCount(t, MAX_SIZE) == 0 && Absent(t, key)
  {
    var t: seq<Slot<V>> := EmptySlots();
    assert !Used(t, 0);
    NoneUsed(t, MAX_SIZE);
  }

  lemma {:induction false} NoneUsed<V>(t: seq<Slot<V>>, n: nat)
    requires n <= |t| && forall i: nat {:trigger Used(t, i)} | i < |t| :: !Used(t, i)
    ensures UsedCount(t, n) == 0
  {
    if n > 0 {
      NoneUsed(t, n - 1);
    }
  }

  /** One more key: form, room and absence of the others are kept. */
  lemma {:induction false} OneMoreKey<V>(t: seq<Slot<V>>, key: Key, value: V)
    requires WellFormed(t) && HasFree(t) && key != [] && Absent(t, key)
    requires UsedCount(t, MAX_SIZE) + 1 < MAX_SIZE
    ensures var r := Inserted(t, key, value);
            WellFormed(r) && HasFree(r) && UsedCount(r, MAX_SIZE) == UsedCount(t, MAX_SIZE) + 1
  {
    var i := WrittenSlot(t, key);
    var r := Inserted(t, key, value);
    assert !HoldsAt(t, key, Hash(key));
    InsertKeepsForm(t, key, value);
    CountAfterWrite(t, i, Slot(key, Some(value)), MAX_SIZE);
    FewUsedLeaveFree(r, MAX_SIZE);
  }

  /** The table knows the key exactly if a pair has it, with the pair's value. */
  ghost predicate Answers<V>(t: seq<Slot<V>>, pairs: seq<(Key, V)>, key: Key) {
    && |t| == MAX_SIZE
    && (forall i | 0 <= i < |pairs| && pairs[i].0 == key :: Lookup(t, key) == Some(pairs[i].1))
    && ((forall i | 0 <= i < |pairs| :: pairs[i].0 != key) ==> Absent(t, key) && Lookup(t, key) == None)
  }

  lemma {:induction false} AnswersOneMore<V>(t: seq<Slot<V>>, front: seq<(Key, V)>, k: Key, v: V, key: Key)
    requires WellFormed(t) && HasFree(t) && Answers(t, front, key) && k != [] && Absent(t, k)
    requires forall i | 0 <= i < |front| :: front[i].0 != k
    ensures Answers(Inserted(t, k, v), front + [(k, v)], key)
  {
    hide WellFormed, HasFree, Lookup, Absent, Inserted;
    FormSize(t);
    var pairs, r := front + [(k, v)], Inserted(t, k, v);
    assert pairs[|front|] == (k, v) && forall i | 0 <= i < |front| :: pairs[i] == front[i];
    if key == k {
      NotAtHome(t, k);
      FindsInserted(t, k, v);
    } else {
      FindsOthers(t, k, v, key);
      if forall i | 0 <= i < |pairs| :: pairs[i].0 != key {
        assert forall i | 0 <= i < |front| :: front[i].0 == pairs[i].0;
        StaysAbsent(t, k, v, key);
      }
    }
  }

  /** Fewer than a hundred pairs with distinct keys: the table stays well formed
      with room to spare, knows every key that was inserted and no other. */
  lemma {:induction false} TableIsMap<V>(pairs: seq<(Key, V)>, key: Key)
    requires |pairs| < 100 && DistinctKeys(pairs)
    ensures var t := InsertedAll(EmptySlots(), pairs);
            WellFormed(t) && HasFree(t) && UsedCount(t, MAX_SIZE) == |pairs| && Answers(t, pairs, key)
    decreases |pairs|
  {
    hide WellFormed, HasFree, Lookup, Absent, Inserted, UsedCount, EmptySlots, Answers;
    if pairs == [] {
      EmptyAnswers<V>(key);
    } else {
      var n := |pairs| - 1;
      var k, v, front := pairs[n].0, pairs[n].1, pairs[..n];
      var t := InsertedAll(EmptySlots(), front);
      TableIsMap(front, key);
      TableIsMap(front, k);
      NewKeyAbsent(t, front, k);
      InsertedLast(EmptySlots(), pairs);
      assert pairs == front + [(k, v)] && forall i | 0 <= i < n :: front[i].0 != k;
      OneMoreKey(t, k, v);
      AnswersOneMore(t, front, k, v, key);
    }
  }

  lemma {:induction false} EmptyAnswers<V>(key: Key)
    ensures var t: seq<Slot<V>> := EmptySlots();
            WellFormed(t) && HasFree(t) && UsedCount(t, MAX_SIZE) == 0 && Answers(t, [], key)
  {
    hide WellFormed, HasFree, UsedCount, Absent, EmptySlots;
    EmptyIsMap<V>(key);
    AbsentNotFound(EmptySlots<V>(), key);
  }

  lemma {:induction false} NewKeyAbsent<V>(t: seq<Slot<V>>, front: seq<(Key, V)>, k: Key)
    requires Answers(t, front, k) && forall i | 0 <= i < |front| :: front[i].0 != k
    ensures |t| == MAX_SIZE && Absent(t, k)
  {
  }

  lemma {:induction false} NotAtHome<V>(t: seq<Slot<V>>, key: Key)
    requires |t| == MAX_SIZE && Absent(t, key)
    ensures !AtHome(t, key)
  {
  }

  lemma {:induction false} StaysAbsent<V>(t: seq<Slot<V>>, key: Key, value: V, other: Key)
    requires WellFormed(t) && Ends(t, key) && other != key && Absent(t, other)
    ensures Absent(Inserted(t, key, value), other)
  {
    var i := WrittenSlot(t, key);
    var r := Inserted(t, key, value);
    forall j: nat | j < |r| ensures !HoldsAt(r, other, j) {
      assert !HoldsAt(t, other, j);
    }
  }

  /** A key that went into its home slot goes in a second time behind it: the
      table is no map any more and still answers with the first value. */
  lemma {:induction false} SecondInsertHidden<V>(key: Key, first: V, second: V)
    requires key != []
    ensures var t: seq<Slot<V>> := Inserted(EmptySlots(), key, first);
            && WellFormed(t) && !WellFormed(Inserted(t, key, second))
            && Lookup(Inserted(t, key, second), key) == Some(first)
  {
    hide WellFormed, HasFree, UsedCount, Lookup;
    var e: seq<Slot<V>> := EmptySlots();
    EmptyIsMap<V>(key);
    assert InsertStop(e, key, 0) == 0;
    var t := Inserted(e, key, first);
    assert AtHome(t, key);
    OneMoreKey(e, key, first);
    NotAtHome(e, key);
    FindsInserted(e, key, first);
    InsertKeepsForm(t, key, second);
    FindsInserted(t, key, second);
  }

  // ----- the array ------------------------------------------------------------

  /** Free slots have the empty key, which is never looked for. */
  ghost predicate Blank<V>(t: seq<Slot<V>>) {
    forall i: nat {:trigger Used(t, i)} | i < |t| && !Used(t, i) :: t[i].key == []
  }

  lemma {:induction false} WriteKeepsBlank<V>(t: seq<Slot<V>>, i: nat, s: Slot<V>)
    requires Blank(t) && i < |t| && s.value.Some?
    ensures Blank(t[i := s])
  {
    forall j: nat | j < |t| && !Used(t[i := s], j) ensures t[j].key == [] {
      assert !Used(t, j);
    }
  }

  lemma {:induction false} KeyedIsUsed<V>(t: seq<Slot<V>>, i: nat)
    requires Blank(t) && i < |t| && t[i].key != []
    ensures Used(t, i)
  {
  }

  class HashTable<V> {
    const table: array<Slot<V>>
    var size: nat

    constructor ()
      ensures fresh(table) && table[..] == EmptySlots() && size == 0
    {
      table := new Slot<V>[MAX_SIZE](_ => Slot([], None));
      size := 0;
    }

    ghost predicate Valid()
      reads table
    {
      table.Length == MAX_SIZE && Blank(table[..])
    }

    method Insert(key: Key, value: V)
      requires Valid() && Ends(table[..], key) && key != []
      modifies table, this`size
      ensures Valid() && table[..] == Inserted(old(table[..]), key, value)
      ensures size - UsedCount(table[..], MAX_SIZE) == old(size) - UsedCount(old(table[..]), MAX_SIZE)
    {
      hide Ends, HasFree, Absent, Hash, Blank, UsedCount;
      ghost var t, d := table[..], 0;
      InsertEndsExactly(t, key);
      var index := ComputeHash(key);
      while table[index].value.Some?
        invariant 0 <= d <= MAX_SIZE && index == Step(Hash(key), d) && table[..] == t
        invariant InsertStop(t, key, d) == InsertStop(t, key, 0)
        invariant d > 0 ==> t[index].key != key
        decreases MAX_SIZE - d
      {
        assert Used(t, index);
        index := (index + 1) % MAX_SIZE;
        d := d + 1;
        if table[index].key == key {
          KeyedIsUsed(t, index);
          WriteSlot(index, key, value);
          return;
        }
      }
      assert !Used(t, index);
      WriteSlot(index, key, value);
      size := size + 1;
    }

    method WriteSlot(index: nat, key: Key, value: V)
      requires Valid() && index < MAX_SIZE
      modifies table
      ensures Valid() && table[..] == old(table[..])[index := Slot(key, Some(value))]
      ensures UsedCount(table[..], MAX_SIZE)
              == UsedCount(old(table[..]), MAX_SIZE) + if Used(old(table[..]), index) then 0 else 1
    {
      hide Blank, UsedCount;
      ghost var t := table[..];
      table[index] := Slot(key, Some(value));
      assert table[..] == t[index := Slot(key, Some(value))];
      WriteKeepsBlank(t, index, Slot(key, Some(value)));
      CountAfterWrite(t, index, Slot(key, Some(value)), MAX_SIZE);
    }

    method Find(key: Key) returns (value: Option<V>)
      requires table.Length == MAX_SIZE && Ends(table[..], key)
      ensures value == Lookup(table[..], key)
    {
      hide Ends, HasFree, Absent, Hash;
      ghost var t, d := table[..], 0;
      FindEndsExactly(t, key);
      var index := ComputeHash(key);
      while table[index].value.Some?
        invariant 0 <= d < MAX_SIZE && index == Step(Hash(key), d)
        invariant FindStop(t, key, d) == FindStop(t, key, 0)
        decreases MAX_SIZE - d
      {
        assert Used(t, index);
        if table[index].key == key {
          return table[index].value;
        }
        index := (index + 1) % MAX_SIZE;
        d := d + 1;
      }
      assert !Used(t, index);
      return None;
    }
  }
}
