/** The value of each window cut, in terms of the windows, alpha and the configuration,
    without the arithmetic of `slowdown`. */
module CutLaws {
  import opened DctcpControl

  /** `n` is `x` without its fraction. */
  predicate IsTrunc(n: int, x: real) {
    if 0.0 <= x then n as real <= x < n as real + 1.0 else n as real - 1.0 < x <= n as real
  }

  predicate IsLarger(r: real, a: real, b: real) {
    r == if a < b then b else a
  }

  /** `h` is half the window: exactly, or in whole packets. */
  predicate IsHalf(h: real, win: real, precise: bool) {
    if precise then 2.0 * h == win else h == h.Floor as real && 2.0 * h <= win < 2.0 * h + 2.0
  }

  /** `d` is the part `x` of the window: exactly, or in whole packets of a whole
      window. */
  predicate IsDecrease(d: real, x: real, win: real, precise: bool) {
    if precise then d == x * win else d == d.Floor as real && IsTrunc(d.Floor, x * win.Floor as real)
  }

  /** What is left of the window when alpha times its half is taken. */
  predicate IsDctcp(r: real, alpha: real, win: real) {
    2.0 * (win - r) == alpha * win
  }

  /** A threshold: whole packets, at least two. */
  predicate IsThreshold(t: int, x: real) {
    if x < 2.0 then t == 2 else IsTrunc(t, x)
  }

  /** What each cut does to the window `w`. */
  ghost predicate CutsTo(cut: Cut, w: Window, w': Window, c: CutConfig, first: bool, afterTimeout: bool) {
    var win, slowstart := if w.cwnd < w.wnd then w.cwnd else w.wnd, w.cwnd < w.ssthresh as real;
    && w'.wnd == w.wnd
    && match cut
       case HalfCut => HalvesTo(w', win, c, first || slowstart || c.decreaseNum == 0.5,
                                first || slowstart || afterTimeout)
       case DctcpCut => (exists r :: IsDctcp(r, c.alpha, win) && IsLarger(w'.cwnd, 1.0, r) &&
                                     IsThreshold(w'.ssthresh, r))
       case RestartCut => ThresholdTo(w'.ssthresh, win, c, first || slowstart || afterTimeout) &&
                          exists n :: IsTrunc(n, c.wndRestart) && IsLarger(w'.cwnd, 1.0, n as real)
       case OneCut => w'.cwnd == 1.0 && w'.ssthresh == if w.ssthresh < 2 then 2 else w.ssthresh
  }

  /** The window takes the half or the decrease, and so does the threshold. */
  ghost predicate HalvesTo(w': Window, win: real, c: CutConfig, byHalf: bool, thresholdByHalf: bool) {
    && ThresholdTo(w'.ssthresh, win, c, thresholdByHalf)
    && if byHalf then exists h :: IsHalf(h, win, c.precision) && IsLarger(w'.cwnd, 1.0, h)
       else exists d :: IsDecrease(d, c.decreaseNum, win, c.precision) && IsLarger(w'.cwnd, 1.0, d)
  }

  ghost predicate ThresholdTo(ssthresh: int, win: real, c: CutConfig, byHalf: bool) {
    if byHalf then exists h :: IsHalf(h, win, c.precision) && IsThreshold(ssthresh, h)
    else exists d :: IsDecrease(d, c.decreaseNum, win, c.precision) && IsThreshold(ssthresh, d)
  }

  lemma TruncIs(x: real)
    ensures IsTrunc(Trunc(x), x) && (Trunc(x) as real).Floor == Trunc(x)
    ensures IsThreshold(AtLeastTwo(Trunc(x)), x)
  {}

  lemma HalfIs(w: Window, c: CutConfig)
    requires 0.0 <= Windowd(w)
    ensures IsHalf(HalfWin(w, c), Windowd(w), c.precision)
  {
    var win := Windowd(w);
    if !c.precision {
      var n := Trunc(win);
      TruncIs(win);
      TruncIs(n as real / 2.0);
      var h := Trunc(n as real / 2.0);
      assert HalfWin(w, c) == h as real;
      HalfOfWhole(win, n, h);
    }
  }

  lemma HalfOfWhole(win: real, n: int, h: int)
    requires 0 <= n && IsTrunc(n, win) && IsTrunc(h, n as real / 2.0) && 0.0 <= win
    ensures 2.0 * h as real <= win < 2.0 * h as real + 2.0
  {
    assert (2 * h) as real <= n as real < (2 * h + 2) as real;
    assert 2 * h <= n <= 2 * h + 1;
  }

  lemma DecreaseIs(w: Window, c: CutConfig)
    requires 0.0 <= Windowd(w)
    ensures IsDecrease(DecreaseWin(w, c), c.decreaseNum, Windowd(w), c.precision)
  {
    var win := Windowd(w);
    if !c.precision {
      TruncIs(win);
      TruncIs(Part(c.decreaseNum, Trunc(win) as real));
      assert Trunc(win) == win.Floor;
    }
  }

  lemma ScaledIs(alpha: real, win: real)
    ensures IsDctcp(Scaled(alpha, win), alpha, win)
  {
    assert Scaled(alpha, win) == win - alpha / 2.0 * win;
    assert 2.0 * (alpha / 2.0 * win) == alpha * win;
  }

  /** `slowdown` makes exactly these cuts. */
  lemma SlowdownCuts(w: Window, c: CutConfig, cut: Cut, first: bool, afterTimeout: bool)
    requires 0.0 <= Windowd(w)
    ensures CutsTo(cut, w, Slowdown(w, c, cut, first, afterTimeout), c, first, afterTimeout)
  {
    hide Trunc, HalfWin, DecreaseWin, Scaled, IsHalf, IsDecrease, IsDctcp, IsTrunc, IsThreshold;
    var win := Windowd(w);
    HalfIs(w, c);
    DecreaseIs(w, c);
    ScaledIs(c.alpha, win);
    TruncIs(HalfWin(w, c));
    TruncIs(DecreaseWin(w, c));
    TruncIs(Scaled(c.alpha, win));
    TruncIs(c.wndRestart);
  }

  // The relation leaves no choice

  lemma TruncOnce(n: int, n': int, x: real)
    requires IsTrunc(n, x) && IsTrunc(n', x)
    ensures n == n'
  {}

  lemma ThresholdOnce(t: int, t': int, x: real)
    requires IsThreshold(t, x) && IsThreshold(t', x)
    ensures t == t'
  {
    if 2.0 <= x {
      TruncOnce(t, t', x);
    }
  }

  lemma HalfOnce(h: real, h': real, win: real, precise: bool)
    requires IsHalf(h, win, precise) && IsHalf(h', win, precise)
    ensures h == h'
  {
    if !precise {
      assert h.Floor == h'.Floor;
    }
  }

  lemma DecreaseOnce(d: real, d': real, x: real, win: real, precise: bool)
    requires IsDecrease(d, x, win, precise) && IsDecrease(d', x, win, precise)
    ensures d == d'
  {
    if !precise {
      TruncOnce(d.Floor, d'.Floor, x * win.Floor as real);
    }
  }

  lemma ThresholdToOnce(t: int, t': int, win: real, c: CutConfig, byHalf: bool)
    requires ThresholdTo(t, win, c, byHalf) && ThresholdTo(t', win, c, byHalf)
    ensures t == t'
  {
    hide IsHalf, IsDecrease, IsThreshold;
    if byHalf {
      var h :| IsHalf(h, win, c.precision) && IsThreshold(t, h);
      var h' :| IsHalf(h', win, c.precision) && IsThreshold(t', h');
      HalfOnce(h, h', win, c.precision);
      ThresholdOnce(t, t', h);
    } else {
      var d :| IsDecrease(d, c.decreaseNum, win, c.precision) && IsThreshold(t, d);
      var d' :| IsDecrease(d', c.decreaseNum, win, c.precision) && IsThreshold(t', d');
      DecreaseOnce(d, d', c.decreaseNum, win, c.precision);
      ThresholdOnce(t, t', d);
    }
  }

  lemma HalvesToOnce(w1: Window, w2: Window, win: real, c: CutConfig, byHalf: bool, thresholdByHalf: bool)
    requires HalvesTo(w1, win, c, byHalf, thresholdByHalf) && HalvesTo(w2, win, c, byHalf, thresholdByHalf)
    ensures w1.cwnd == w2.cwnd && w1.ssthresh == w2.ssthresh
  {
    hide IsHalf, IsDecrease, IsThreshold, ThresholdTo;
    ThresholdToOnce(w1.ssthresh, w2.ssthresh, win, c, thresholdByHalf);
    if byHalf {
      var h :| IsHalf(h, win, c.precision) && IsLarger(w1.cwnd, 1.0, h);
      var h' :| IsHalf(h', win, c.precision) && IsLarger(w2.cwnd, 1.0, h');
      HalfOnce(h, h', win, c.precision);
    } else {
      var d :| IsDecrease(d, c.decreaseNum, win, c.precision) && IsLarger(w1.cwnd, 1.0, d);
      var d' :| IsDecrease(d', c.decreaseNum, win, c.precision) && IsLarger(w2.cwnd, 1.0, d');
      DecreaseOnce(d, d', c.decreaseNum, win, c.precision);
    }
  }

  lemma CutsToOne(cut: Cut, w: Window, w1: Window, w2: Window, c: CutConfig, first: bool, afterTimeout: bool)
    requires CutsTo(cut, w, w1, c, first, afterTimeout) && CutsTo(cut, w, w2, c, first, afterTimeout)
    ensures w1 == w2
  {
    hide IsHalf, IsDecrease, IsThreshold, ThresholdTo, HalvesTo, IsTrunc, IsDctcp;
    var win, slowstart := if w.cwnd < w.wnd then w.cwnd else w.wnd, w.cwnd < w.ssthresh as real;
    match cut {
      case HalfCut =>
        HalvesToOnce(w1, w2, win, c, first || slowstart || c.decreaseNum == 0.5, first || slowstart || afterTimeout);
      case DctcpCut =>
        var r :| IsDctcp(r, c.alpha, win) && IsLarger(w1.cwnd, 1.0, r) && IsThreshold(w1.ssthresh, r);
        var r' :| IsDctcp(r', c.alpha, win) && IsLarger(w2.cwnd, 1.0, r') && IsThreshold(w2.ssthresh, r');
        DctcpOnce(r, r', c.alpha, win);
        ThresholdOnce(w1.ssthresh, w2.ssthresh, r);
      case RestartCut =>
        ThresholdToOnce(w1.ssthresh, w2.ssthresh, win, c, first || slowstart || afterTimeout);
        var n :| IsTrunc(n, c.wndRestart) && IsLarger(w1.cwnd, 1.0, n as real);
        var n' :| IsTrunc(n', c.wndRestart) && IsLarger(w2.cwnd, 1.0, n' as real);
        TruncOnce(n, n', c.wndRestart);
      case OneCut =>
    }
  }

  lemma DctcpOnce(r: real, r': real, alpha: real, win: real)
    requires IsDctcp(r, alpha, win) && IsDctcp(r', alpha, win)
    ensures r == r'
  {}

  /** An illustration: a window of 20 and alpha 1/2. */
  lemma QuarterOff(w': Window, c: CutConfig, first: bool, afterTimeout: bool)
    requires c.alpha == 0.5 && CutsTo(DctcpCut, Window(20.0, 100.0, 2), w', c, first, afterTimeout)
    ensures w'.cwnd == 15.0 && w'.ssthresh == 15
  {}
}
