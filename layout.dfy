/**
 * The index arithmetic at the start of `generate_kernel`: how an output
 * buffer of `n` elements is split into a scalar head, a body of whole
 * `output_width`-element groups stored as vectors, and a scalar tail.
 */
module Layout {
  import opened Types

  /** q * w + r == x with 0 <= r < w pins down x / w and x % w. */
  lemma {:induction false} DivModUnique(x: int, w: int, q: int, r: int)
    requires w > 0 && 0 <= r < w && x == q * w + r
    ensures x / w == q && x % w == r
  {
    var d := x / w - q;
    assert d * w == r - x % w by {
      assert x == (x / w) * w + x % w;
    }
    if d > 0 {
      MulAtLeast(d, w);
    } else if d < 0 {
      MulAtLeast(-d, w);
    }
  }

  lemma {:induction false} MulAtLeast(d: int, w: int)
    requires d >= 1 && w > 0
    ensures d * w >= w
  {
  }

  /** (k + w - k % w) is a multiple of w. */
  lemma {:induction false} ComplementAligns(k: nat, w: nat)
    requires w > 0
    ensures (k + (w - k % w) % w) % w == 0
  {
    var r := k % w;
    var q := k / w;
    assert k == q * w + r;
    if r == 0 {
      DivModUnique(w, w, 1, 0);
      assert (w - r) % w == 0;
      DivModUnique(k, w, q, 0);
    } else {
      DivModUnique(w - r, w, 0, w - r);
      assert k + (w - r) == (q + 1) * w;
      DivModUnique(k + (w - r), w, q + 1, 0);
    }
  }

  /**
   * Unsigned `a / w` and `a % w`, computed by repeated subtraction so
   * that unfolding it yields only linear facts; `DivModIs` ties it to
   * `/` and `%`.
   */
  function DivMod(a: nat, w: nat): (qr: (nat, nat))
    requires w > 0
    ensures qr.1 < w
    decreases a
  {
    if a < w then (0, a)
    else
      var (q, r) := DivMod(a - w, w);
      (q + 1, r)
  }

  lemma {:induction false} DivModIs(a: nat, w: nat)
    requires w > 0
    ensures DivMod(a, w) == (a / w, a % w)
    decreases a
  {
    if a < w {
      DivModUnique(a, w, 0, a);
    } else {
      DivModIs(a - w, w);
      var (q, r) := DivMod(a - w, w);
      assert a - w == q * w + r;
      DivModUnique(a, w, q + 1, r);
    }
  }

  /**
   * `misalignment`: the number of elements in front of the first
   * element whose index, counted in elements from address 0, is a
   * multiple of `width`. `address` is the byte address of the buffer
   * (`uintptr`) and `size` is `sizeof(T)`.
   */
  function Misalignment(address: nat, size: nat, width: nat): (m: nat)
    requires size > 0 && width > 0
    ensures m < width
    ensures width == 1 ==> m == 0
  {
    var r := DivMod(DivMod(address, size).0, width).1;
    if r == 0 then 0 else width - r
  }

  /** `Misalignment` is `(output_width - uintptr / sizeof(T) % output_width) % output_width`. */
  lemma MisalignmentIs(address: nat, size: nat, width: nat)
    requires size > 0 && width > 0
    ensures Misalignment(address, size, width) == (width - address / size % width) % width
  {
    DivModIs(address, size);
    DivModIs(address / size, width);
    var r := address / size % width;
    if r == 0 {
      DivModUnique(width, width, 1, 0);
    } else {
      DivModUnique(width - r, width, 0, width - r);
    }
  }

  /** Skipping `misalignment` elements reaches an element index that is a multiple of `width`. */
  lemma {:induction false} MisalignmentAligns(address: nat, size: nat, width: nat)
    requires size > 0 && width > 0
    ensures (address / size + Misalignment(address, size, width)) % width == 0
  {
    MisalignmentIs(address, size, width);
    ComplementAligns(address / size, width);
  }

  /**
   * For a buffer whose address is a multiple of `sizeof(T)`, the group
   * `index` of the body starts at a byte address that is a multiple of
   * `width * sizeof(T)`, the size of the vector type it is stored as.
   */
  lemma {:induction false} BodyGroupAligned(address: nat, size: nat, width: nat, index: nat)
    requires size > 0 && width > 0 && address % size == 0
    ensures (address + (Misalignment(address, size, width) + index * width) * size) % (width * size) == 0
  {
    var k := address / size;
    var m := Misalignment(address, size, width);
    MisalignmentAligns(address, size, width);
    DivModUnique(address, size, k, 0);
    assert address == k * size;
    var q := (k + m) / width;
    assert k + m == q * width;
    calc {
      address + (m + index * width) * size;
      k * size + m * size + index * width * size;
      (k + m) * size + index * width * size;
      q * width * size + index * width * size;
      (q + index) * (width * size);
    }
    DivModUnique(address + (m + index * width) * size, width * size, q + index, 0);
  }

  /** The four quantities `generate_kernel` derives from `n` and the buffer address. */
  datatype Split = Split(misalignment: nat, head: nat, vecN: nat, tail: nat)

  /** `misalignment`, `head_size`, `vec_n` and `tail_size` of `generate_kernel`. */
  function SplitBuffer(n: nat, address: nat, size: nat, width: nat): Split
    requires size > 0 && width > 0
  {
    var m := Misalignment(address, size, width);
    var head := Min(n, m);
    var (q, r) := DivMod(n - head, width);
    Split(m, head, q, r)
  }

  /**
   * The head is `min(n, misalignment)`; the tail is shorter than a
   * group; a buffer shorter than the misalignment is all head; a body
   * exists only after a complete head; with `output_width == 1` there is
   * neither head nor tail.
   */
  lemma SplitBounds(n: nat, address: nat, size: nat, width: nat)
    requires size > 0 && width > 0
    ensures var s := SplitBuffer(n, address, size, width);
      && s.misalignment == Misalignment(address, size, width)
      && s.head <= n && s.head <= s.misalignment && (s.head == n || s.head == s.misalignment)
      && s.tail < width
      && (n < s.misalignment ==> s.vecN == 0 && s.tail == 0)
      && (s.vecN > 0 ==> s.head == s.misalignment)
      && (width == 1 ==> s.head == 0 && s.tail == 0)
  {
  }

  /** `vec_n` is `(n - head_size) / output_width` and `tail_size` is `(n - head_size) % output_width`. */
  lemma SplitBufferIs(n: nat, address: nat, size: nat, width: nat)
    requires size > 0 && width > 0
    ensures var s := SplitBuffer(n, address, size, width);
      s.vecN == (n - s.head) / width && s.tail == (n - s.head) % width
  {
    DivModIs(n - SplitBuffer(n, address, size, width).head, width);
  }

  /** The head, the `vec_n` groups of the body and the tail add up to `n`. */
  lemma {:induction false} SplitPartition(n: nat, address: nat, size: nat, width: nat)
    requires size > 0 && width > 0
    ensures var s := SplitBuffer(n, address, size, width);
      s.head + s.vecN * width + s.tail == n
  {
    var s := SplitBuffer(n, address, size, width);
    var rest := n - s.head;
    SplitBufferIs(n, address, size, width);
    assert rest == (rest / width) * width + rest % width;
  }

  /** Every element of body group `index < vecN` lies inside the buffer, after the head. */
  lemma {:induction false} BodyGroupInBuffer(n: nat, address: nat, size: nat, width: nat, index: nat)
    requires size > 0 && width > 0
    requires index < SplitBuffer(n, address, size, width).vecN
    ensures var s := SplitBuffer(n, address, size, width);
      s.head <= s.misalignment + index * width &&
      s.misalignment + index * width + width <= n - s.tail
  {
    var s := SplitBuffer(n, address, size, width);
    SplitPartition(n, address, size, width);
    assert (index + 1) * width <= s.vecN * width;
  }

  /** An element between the head and the tail is element `j` of body group `g`. */
  lemma {:induction false} BodyPosition(n: nat, address: nat, size: nat, width: nat, a: nat) returns (g: nat, j: nat)
    requires size > 0 && width > 0
    requires SplitBuffer(n, address, size, width).head <= a < n - SplitBuffer(n, address, size, width).tail
    ensures var s := SplitBuffer(n, address, size, width);
      g < s.vecN && j < width && a == s.misalignment + g * width + j
  {
    var s := SplitBuffer(n, address, size, width);
    SplitBounds(n, address, size, width);
    SplitPartition(n, address, size, width);
    var x := a - s.head;
    GroupOf(x, s.vecN, width);
    g := x / width;
    j := x % width;
  }

  /** An offset below `groups * width` lies in group `x / width < groups`. */
  lemma GroupOf(x: nat, groups: nat, width: nat)
    requires width > 0 && x < groups * width
    ensures x / width < groups && x == x / width * width + x % width
  {
    if x / width >= groups {
      MulMonotone(x / width, groups, width);
    }
  }

  lemma MulMonotone(a: nat, b: nat, w: nat)
    requires a >= b
    ensures a * w >= b * w
  {
    assert a * w == b * w + (a - b) * w;
  }
}
