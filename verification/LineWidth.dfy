/**
  Line widths of a byte string whose lines end in CR, LF or CR LF, stated so
  that a writer can keep them while it appends.
 */
module LineWidth {
  import opened Octets

  /** No line is longer than `width`: no longer stretch is free of line breaks. */
  ghost predicate LinesFit(r: Bytes, width: nat)
  {
    forall a, b :: 0 <= a <= b <= |r| && NoBreaks(r[a..b]) ==> b - a <= width
  }

  /** Every `width + 1` bytes in a row hold a line break. */
  ghost predicate Narrow(out: Bytes, width: nat)
  {
    forall a :: 0 <= a && a + width < |out| ==> BreakSoon(out, a, width)
  }

  ghost predicate BreakSoon(out: Bytes, a: int, width: nat)
    requires 0 <= a && a + width < |out|
  {
    exists k :: a <= k <= a + width && IsBreak(out[k])
  }

  /** The last `col` bytes are a line of their own. */
  predicate LastLine(out: Bytes, col: nat)
  {
    col <= |out| && (col < |out| ==> out[|out| - col - 1] == LF)
  }

  lemma NarrowAppend(out: Bytes, col: nat, w: Bytes, width: nat)
    requires Narrow(out, width) && LastLine(out, col) && col + |w| <= width
    ensures Narrow(out + w, width)
  {
    var r := out + w;
    forall a | 0 <= a && a + width < |r| ensures BreakSoon(r, a, width) {
      if a + width < |out| {
        assert BreakSoon(out, a, width);
        var k :| a <= k <= a + width && IsBreak(out[k]);
        assert r[k] == out[k];
      } else {
        assert r[|out| - col - 1] == LF;
      }
    }
  }

  lemma NarrowBreak(out: Bytes, w: Bytes, width: nat)
    requires Narrow(out, width) && forall k :: 0 <= k < |w| ==> IsBreak(w[k])
    ensures Narrow(out + w, width)
  {
    var r := out + w;
    forall a | 0 <= a && a + width < |r| ensures BreakSoon(r, a, width) {
      if a + width < |out| {
        assert BreakSoon(out, a, width);
        var k :| a <= k <= a + width && IsBreak(out[k]);
        assert r[k] == out[k];
      } else {
        assert IsBreak(r[a + width]);
      }
    }
  }

  lemma NarrowPrefix(out: Bytes, p: nat, width: nat)
    requires Narrow(out, width) && p <= |out|
    ensures Narrow(out[..p], width)
  {
    forall a | 0 <= a && a + width < p ensures BreakSoon(out[..p], a, width) {
      assert BreakSoon(out, a, width);
      var k :| a <= k <= a + width && IsBreak(out[k]);
      assert out[..p][k] == out[k];
    }
  }

  lemma NarrowRun(r: Bytes, a: nat, b: nat, width: nat)
    requires Narrow(r, width) && a + width < b <= |r|
    ensures !NoBreaks(r[a..b])
  {
    assert BreakSoon(r, a, width);
    var k :| a <= k <= a + width && IsBreak(r[k]);
    assert r[a..b][k - a] == r[k];
  }

  lemma NarrowLines(r: Bytes, width: nat)
    requires Narrow(r, width)
    ensures LinesFit(r, width)
  {
    forall a, b | 0 <= a <= b <= |r| && NoBreaks(r[a..b]) ensures b - a <= width {
      if b - a > width { NarrowRun(r, a, b, width); }
    }
  }
}
