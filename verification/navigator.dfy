/** `handleSearchKeyDown`: Enter and Shift+Enter in the search box move an
    index over the list of search matches, wrapping at both ends. The index
    is -1 before the first move. */
module Navigator {

  /** JavaScript's `%` on integers: the remainder truncated toward zero, so it
      takes the sign of the dividend (Dafny's `%` never goes negative). */
  function JsRemainder(a: int, n: int): (r: int)
    requires n > 0
    ensures -n < r < n
    ensures a >= 0 ==> r >= 0
    ensures a <= 0 ==> r <= 0
    ensures (a - r) % n == 0
  {
    if a >= 0 then
      ModUnique(a - a % n, n, a / n, 0);
      a % n
    else
      ModUnique(a + (-a) % n, n, -((-a) / n), 0);
      -((-a) % n)
  }

  /** On a non-negative dividend the truncated and the Euclidean remainder
      agree; on a negative one they differ by `n` unless `n` divides it. */
  lemma JsRemainderVersusMod(a: int, n: int)
    requires n > 0
    ensures a >= 0 ==> JsRemainder(a, n) == a % n
    ensures a < 0 && a % n != 0 ==> JsRemainder(a, n) == a % n - n
  {
    if a < 0 && a % n != 0 {
      var r := JsRemainder(a, n);
      var q := (a - r) / n;
      assert a == q * n + r;
      if r == 0 {
        ModUnique(a, n, q, 0);
      }
      assert a == (q - 1) * n + (r + n);
      ModUnique(a, n, q - 1, r + n);
    }
  }

  /** Euclidean division is unique: a quotient and a remainder in [0, n)
      that rebuild `a` are Dafny's. */
  lemma ModUnique(a: int, n: int, q: int, r: int)
    requires n > 0 && 0 <= r < n && a == q * n + r
    ensures a % n == r && a / n == q
  {
    var q0, r0 := a / n, a % n;
    assert (q - q0) * n == r0 - r;
    if q > q0 {
      MulAtLeast(q - q0, n);
    } else if q < q0 {
      MulAtLeast(q0 - q, n);
    }
  }

  lemma MulAtLeast(d: int, n: int)
    requires d >= 1 && n > 0
    ensures d * n >= n
  {
  }

  datatype Key = Key(name: string, shift: bool)

  const Enter: Key := Key("Enter", false)
  const ShiftEnter: Key := Key("Enter", true)

  /** One key press with `count` matches at position `index`. With no
      matches, or on any key but Enter, nothing moves; Enter and Shift+Enter
      always land on a match when they start from -1 or a match. */
  function KeyDown(count: nat, index: int, key: Key): (r: int)
    ensures count == 0 ==> r == index
    ensures key.name != "Enter" ==> r == index
    ensures count > 0 && key.name == "Enter" && -1 <= index < count ==> 0 <= r < count
  {
    if count == 0 then index
    else if key.name == "Enter" then
      if key.shift then JsRemainder(index - 1 + count, count)
      else JsRemainder(index + 1, count)
    else index
  }

  /** Enter moves one match forward, wrapping from the last to the first. */
  lemma EnterStep(count: nat, index: int)
    requires 0 < count && -1 <= index < count
    ensures KeyDown(count, index, Enter) == if index == count - 1 then 0 else index + 1
  {
    if index == count - 1 {
      ModUnique(index + 1, count, 1, 0);
    } else {
      ModUnique(index + 1, count, 0, index + 1);
    }
  }

  /** Shift+Enter moves one match back, wrapping from the first to the last.
      From -1 it computes (count - 2) mod count: the second-to-last match
      when there are two or more, not the last one. */
  lemma ShiftEnterStep(count: nat, index: int)
    requires 0 < count && -1 <= index < count
    ensures 0 <= index ==> KeyDown(count, index, ShiftEnter) == if index == 0 then count - 1 else index - 1
    ensures index == -1 && count >= 2 ==> KeyDown(count, index, ShiftEnter) == count - 2
    ensures index == -1 && count == 1 ==> KeyDown(count, index, ShiftEnter) == 0
  {
    if index == -1 {
      if count >= 2 {
        ModUnique(count - 2, count, 0, count - 2);
      }
    } else if index == 0 {
      ModUnique(count - 1, count, 0, count - 1);
    } else {
      ModUnique(index - 1 + count, count, 1, index - 1);
    }
  }

  /** Enter followed by Shift+Enter returns to the match it started on, and
      so does Shift+Enter followed by Enter. */
  lemma EnterShiftEnterInverse(count: nat, index: int)
    requires 0 <= index < count
    ensures KeyDown(count, KeyDown(count, index, Enter), ShiftEnter) == index
    ensures KeyDown(count, KeyDown(count, index, ShiftEnter), Enter) == index
  {
    EnterStep(count, index);
    ShiftEnterStep(count, index);
    EnterStep(count, KeyDown(count, index, ShiftEnter));
    ShiftEnterStep(count, KeyDown(count, index, Enter));
  }

  /** The index after `k` presses of the same key. */
  function Presses(count: nat, index: int, key: Key, k: nat): int
    decreases k
  {
    if k == 0 then index else Presses(count, KeyDown(count, index, key), key, k - 1)
  }

  /** From a match, `k` Enters advance `k` places modulo the match count. */
  lemma {:induction false} EnterPresses(count: nat, index: int, k: nat)
    requires 0 <= index < count
    ensures Presses(count, index, Enter, k) == (index + k) % count
    decreases k
  {
    if k > 0 {
      var next := KeyDown(count, index, Enter);
      EnterStep(count, index);
      EnterPresses(count, next, k - 1);
      if index == count - 1 {
        assert (index + k) % count == (k - 1) % count by {
          ModShift(k - 1, count);
        }
      }
    }
  }

  lemma ModShift(a: int, n: int)
    requires n > 0
    ensures (a + n) % n == a % n
  {
    ModUnique(a + n, n, a / n + 1, a % n);
  }

  /** `count` Enters from any match come back to it. */
  lemma EnterCycle(count: nat, index: int)
    requires 0 <= index < count
    ensures Presses(count, index, Enter, count) == index
  {
    EnterPresses(count, index, count);
    ModShift(index, count);
    ModUnique(index, count, 0, index);
  }

  /** From -1, the first Enter lands on the first match and each further
      Enter advances by one: after `k` presses the index is (k - 1) mod count. */
  lemma EnterPressesFromStart(count: nat, k: nat)
    requires 0 < count && 0 < k
    ensures Presses(count, -1, Enter, k) == (k - 1) % count
  {
    EnterPresses(count, 0, k - 1);
  }
}
