/**
 * The tab strip of the media block. Only the active tab can take focus with the Tab key
 * (`tabIndex` 0, the others -1) and only it is marked `aria-selected`; the arrow keys move focus
 * round the strip, Home and End jump to its ends. Focus is modelled as the index of the tab
 * that receives it.
 */
module MediaTabs {
  import opened Wrappers
  import Collections

  /** The keys the handler looks at; every other key is `Other`. */
  datatype Key = ArrowRight | ArrowLeft | Home | End | Other

  /**
   * `handleKeyDown(e, index)` on the tab at `index` of `n`: the index of the tab it focuses, or
   * `None` when it focuses nothing. The handler belongs to a rendered tab, so `index < n`.
   */
  function FocusTarget(key: Key, index: nat, n: nat): (r: Option<nat>)
    requires index < n
    ensures r.Some? ==> r.value < n
    ensures r.None? <==> key == Other
    ensures key == Home ==> r == Some(0)
    ensures key == End ==> r == Some(n - 1)
  {
    match key
    case ArrowRight => Some((index + 1) % n)
    case ArrowLeft => Some((index - 1 + n) % n)
    case Home => Some(0)
    case End => Some(n - 1)
    case Other => None
  }

  /** The index focus ends on after a key: the target, or where it was. */
  function Press(key: Key, index: nat, n: nat): (r: nat)
    requires index < n
    ensures r < n
  {
    var t := FocusTarget(key, index, n);
    if t.Some? then t.value else index
  }

  /** `k` presses of ArrowRight. */
  function PressRight(k: nat, index: nat, n: nat): (r: nat)
    requires index < n
    ensures r < n
  {
    if k == 0 then index else PressRight(k - 1, Press(ArrowRight, index, n), n)
  }

  /** ArrowRight moves to the next tab, wrapping from the last to the first. */
  lemma RightStep(index: nat, n: nat)
    requires index < n
    ensures Press(ArrowRight, index, n) == if index == n - 1 then 0 else index + 1
  {
  }

  /** ArrowLeft moves to the previous tab, wrapping from the first to the last. */
  lemma LeftStep(index: nat, n: nat)
    requires index < n
    ensures Press(ArrowLeft, index, n) == if index == 0 then n - 1 else index - 1
  {
    if index > 0 {
      assert index - 1 + n == (index - 1) + n * 1;
    }
  }

  /** ArrowRight then ArrowLeft comes back, and so does ArrowLeft then ArrowRight. */
  lemma RightLeft(index: nat, n: nat)
    requires index < n
    ensures Press(ArrowLeft, Press(ArrowRight, index, n), n) == index
    ensures Press(ArrowRight, Press(ArrowLeft, index, n), n) == index
  {
    RightStep(index, n);
    LeftStep(index, n);
    RightStep(Press(ArrowLeft, index, n), n);
    LeftStep(Press(ArrowRight, index, n), n);
  }

  /** A positive multiple of `n` is at least `n`. */
  lemma {:induction false} MultipleAtLeast(d: nat, n: nat)
    requires d >= 1
    ensures d * n >= n
  {
    if d > 1 {
      MultipleAtLeast(d - 1, n);
      assert d * n == (d - 1) * n + n;
    }
  }

  /** Adding the strip's length does not change the remainder. */
  lemma ModAddLength(a: nat, n: nat)
    requires n > 0
    ensures (a + n) % n == a % n
  {
    var q, r := a / n, a % n;
    var q', r' := (a + n) / n, (a + n) % n;
    assert a + n == (q + 1) * n + r by {
      assert (q + 1) * n == q * n + n;
    }
    assert a + n == q' * n + r';
    if q' > q + 1 {
      MultipleAtLeast(q' - (q + 1), n);
    } else if q' < q + 1 {
      MultipleAtLeast((q + 1) - q', n);
    }
  }

  /** `k` presses of ArrowRight land `k` tabs further round the strip. */
  lemma {:induction false} RightPresses(k: nat, index: nat, n: nat)
    requires index < n
    ensures PressRight(k, index, n) == (index + k) % n
  {
    if k > 0 {
      RightStep(index, n);
      var next := Press(ArrowRight, index, n);
      RightPresses(k - 1, next, n);
      if index == n - 1 {
        ModAddLength(k - 1, n);
        assert index + k == (k - 1) + n;
      } else {
        assert index + k == next + (k - 1);
      }
    }
  }

  /** `n` presses of ArrowRight come back to the starting tab. */
  lemma FullCircle(index: nat, n: nat)
    requires index < n
    ensures PressRight(n, index, n) == index
  {
    RightPresses(n, index, n);
    ModAddLength(index, n);
    ModBelow(index, n);
  }

  /** A number below the strip's length is its own remainder. */
  lemma ModBelow(a: nat, n: nat)
    requires a < n
    ensures a % n == a
  {
    assert a == n * 0 + a;
  }

  /** `tabIndex={activeTab === t.key ? 0 : -1}`. */
  function TabIndex(activeTab: string, key: string): int {
    if activeTab == key then 0 else -1
  }

  /** `aria-selected={activeTab === t.key}`. */
  predicate AriaSelected(activeTab: string, key: string) {
    activeTab == key
  }

  /** The tabs that can take focus with the Tab key. */
  function Focusable(keys: seq<string>, activeTab: string): seq<string> {
    Collections.Filter(keys, (k: string) => TabIndex(activeTab, k) == 0)
  }

  /**
   * With distinct tab keys, exactly one tab is focusable when the active tab is among them, and
   * none otherwise; it is the selected one, and every other tab has `tabIndex` -1.
   */
  lemma {:induction false} SingleFocusableTab(keys: seq<string>, activeTab: string)
    requires Collections.NoDup(keys)
    ensures Focusable(keys, activeTab) == if activeTab in keys then [activeTab] else []
    ensures forall i :: 0 <= i < |keys| ==> (AriaSelected(activeTab, keys[i]) <==> TabIndex(activeTab, keys[i]) == 0)
    ensures forall i :: 0 <= i < |keys| && keys[i] != activeTab ==> TabIndex(activeTab, keys[i]) == -1
  {
    if keys != [] {
      var rest := keys[1..];
      assert Collections.NoDup(rest) by {
        forall i, j | 0 <= i < j < |rest| ensures rest[i] != rest[j] {
          assert rest[i] == keys[i + 1] && rest[j] == keys[j + 1];
        }
      }
      SingleFocusableTab(rest, activeTab);
      if keys[0] == activeTab {
        assert activeTab !in rest by {
          forall i | 0 <= i < |rest| ensures rest[i] != activeTab {
            assert rest[i] == keys[i + 1];
          }
        }
      }
    }
  }
}
