/** The DCTCP estimator of tcp-sack1.cc (section 3.3 of RFC 8257) and the window
    cuts of `TcpAgent::slowdown`, over real numbers. */
module DctcpControl {
  import opened Reals

  datatype Estimator = Estimator(total: int, marked: int, updateSeq: int, alpha: real)

  /** What `update_dctcp_alpha` reads when an acknowledgement arrives. */
  datatype AckInfo = AckInfo(seqno: int, ecnecho: bool, highestAck: int, maxseq: int)

  function Acked(a: AckInfo): (n: int)
    ensures 1 <= n
  {
    if a.seqno - a.highestAck <= 0 then 1 else a.seqno - a.highestAck
  }

  /** Whether this acknowledgement ends a window of data. */
  predicate Ends(s: Estimator, a: AckInfo) {
    a.seqno > s.updateSeq
  }

  function Mix(g: real, x: real, y: real): real {
    (1.0 - g) * x + g * y
  }

  function OnAck(s: Estimator, g: real, a: AckInfo): Estimator {
    var total := s.total + Acked(a);
    var marked := s.marked + if a.ecnecho then Acked(a) else 0;
    if Ends(s, a) then
      var fraction := if total > 0 then marked as real / total as real else 0.0;
      Estimator(0, 0, a.maxseq, Mix(g, s.alpha, fraction))
    else
      Estimator(total, marked, s.updateSeq, s.alpha)
  }

  function Run(s: Estimator, g: real, acks: seq<AckInfo>): Estimator {
    if acks == [] then s else OnAck(Run(s, g, acks[..|acks| - 1]), g, acks[|acks| - 1])
  }

  /** How many windows of data end during `acks`. */
  function Windows(s: Estimator, g: real, acks: seq<AckInfo>): nat {
    if acks == [] then 0
    else Windows(s, g, acks[..|acks| - 1]) +
         if Ends(Run(s, g, acks[..|acks| - 1]), acks[|acks| - 1]) then 1 else 0
  }

  predicate Sane(s: Estimator) {
    0 <= s.marked <= s.total && 0.0 <= s.alpha <= 1.0
  }

  lemma FractionBounds(marked: int, total: int)
    requires 0 <= marked <= total && 0 < total
    ensures 0.0 <= marked as real / total as real <= 1.0
    ensures marked == total ==> marked as real / total as real == 1.0
    ensures marked == 0 ==> marked as real / total as real == 0.0
  {
    QuotientMonotone(0.0, marked as real, total as real);
    QuotientMonotone(marked as real, total as real, total as real);
    Quotient(total as real, 1.0, total as real);
    Quotient(0.0, 0.0, total as real);
  }

  lemma MixBounds(g: real, x: real, y: real)
    requires 0.0 <= g <= 1.0 && 0.0 <= x <= 1.0 && 0.0 <= y <= 1.0
    ensures 0.0 <= Mix(g, x, y) <= 1.0
  {
    var h := 1.0 - g;
    MixOf(g, h, x, y);
  }

  lemma MixOf(g: real, h: real, x: real, y: real)
    requires 0.0 <= g && 0.0 <= h && g + h == 1.0 && 0.0 <= x <= 1.0 && 0.0 <= y <= 1.0
    ensures 0.0 <= h * x + g * y <= 1.0
  {
    FractionOf(x, h);
    FractionOf(y, g);
    SumOfParts(x * h, y * g, g, h);
  }

  lemma SumOfParts(a: real, b: real, g: real, h: real)
    requires 0.0 <= a <= h && 0.0 <= b <= g && g + h == 1.0
    ensures 0.0 <= a + b <= 1.0
  {}

  /** Over every sequence of acknowledgements 0 <= marked <= total and alpha stays a
      fraction. */
  lemma {:induction false} AlphaStaysAFraction(s: Estimator, g: real, acks: seq<AckInfo>)
    requires 0.0 <= g <= 1.0 && Sane(s)
    ensures Sane(Run(s, g, acks))
  {
    if acks != [] {
      var init, a := acks[..|acks| - 1], acks[|acks| - 1];
      AlphaStaysAFraction(s, g, init);
      var t := Run(s, g, init);
      var total := t.total + Acked(a);
      var marked := t.marked + if a.ecnecho then Acked(a) else 0;
      FractionBounds(marked, total);
      MixBounds(g, t.alpha, marked as real / total as real);
    }
  }

  /** How far alpha is from the level of a uniform stream of acknowledgements. */
  function Gap(alpha: real, marked: bool): real {
    if marked then 1.0 - alpha else alpha
  }

  /** A gap after `k` windows. */
  function Decay(g: real, k: nat, gap: real): real {
    Power(1.0 - g, k) * gap
  }

  lemma DecayStep(g: real, k: nat, gap: real)
    ensures Decay(g, 1, Decay(g, k, gap)) == Decay(g, k + 1, gap)
    ensures Decay(g, 0, gap) == gap
  {
    assert Power(1.0 - g, 1) == 1.0 - g;
    PowerStep(1.0 - g, k + 1, gap);
  }

  ghost predicate Uniform(s: Estimator, marked: bool) {
    0 <= s.total && s.marked == if marked then s.total else 0
  }

  lemma UniformStep(s: Estimator, g: real, a: AckInfo, marked: bool)
    requires Uniform(s, marked) && a.ecnecho == marked
    ensures Uniform(OnAck(s, g, a), marked)
    ensures Gap(OnAck(s, g, a).alpha, marked) ==
            if Ends(s, a) then Decay(g, 1, Gap(s.alpha, marked)) else Gap(s.alpha, marked)
  {
    var total := s.total + Acked(a);
    FractionBounds(if marked then total else 0, total);
    assert Mix(g, s.alpha, 1.0) == 1.0 - (1.0 - g) * (1.0 - s.alpha);
    assert Power(1.0 - g, 1) == 1.0 - g;
  }

  /** When every acknowledgement is marked (or none is), each window shrinks the gap
      by the factor 1 - g: after k windows it is (1 - g)^k times what it was. */
  lemma {:induction false} AlphaConverges(s: Estimator, g: real, acks: seq<AckInfo>, marked: bool)
    requires Uniform(s, marked) && forall i | 0 <= i < |acks| :: acks[i].ecnecho == marked
    ensures Uniform(Run(s, g, acks), marked)
    ensures Gap(Run(s, g, acks).alpha, marked) == Decay(g, Windows(s, g, acks), Gap(s.alpha, marked))
  {
    hide OnAck, Gap, Decay;
    DecayStep(g, 0, Gap(s.alpha, marked));
    if acks != [] {
      var init, a := acks[..|acks| - 1], acks[|acks| - 1];
      AlphaConverges(s, g, init, marked);
      UniformStep(Run(s, g, init), g, a, marked);
      DecayStep(g, Windows(s, g, init), Gap(s.alpha, marked));
    }
  }

  // Window cuts

  /** The cuts this sender makes. */
  datatype Cut =
    | HalfCut       // CLOSE_SSTHRESH_HALF | CLOSE_CWND_HALF
    | DctcpCut      // CLOSE_SSTHRESH_DCTCP | CLOSE_CWND_DCTCP
    | RestartCut    // CLOSE_SSTHRESH_HALF | CLOSE_CWND_RESTART
    | OneCut        // CLOSE_CWND_ONE

  /** The part of the sender that `slowdown` looks at. */
  datatype Window = Window(cwnd: real, wnd: real, ssthresh: int)

  datatype CutConfig = CutConfig(alpha: real, wndRestart: real, decreaseNum: real, precision: bool)

  function Windowd(w: Window): real {
    if w.cwnd < w.wnd then w.cwnd else w.wnd
  }

  /** The C conversion of a double to int. */
  function Trunc(x: real): int {
    if x < 0.0 then -((-x).Floor) else x.Floor
  }

  function AtLeastOne(x: real): real {
    if x < 1.0 then 1.0 else x
  }

  function AtLeastTwo(x: int): int {
    if x < 2 then 2 else x
  }

  /** Half the window and the configured decrease of it, in whole packets unless
      `precision_reduce_` is set. */
  function HalfWin(w: Window, c: CutConfig): real {
    if c.precision then Windowd(w) / 2.0 else Trunc(Trunc(Windowd(w)) as real / 2.0) as real
  }

  function Part(x: real, whole: real): real {
    x * whole
  }

  function DecreaseWin(w: Window, c: CutConfig): real {
    if c.precision then Part(c.decreaseNum, Windowd(w))
    else Trunc(Part(c.decreaseNum, Trunc(Windowd(w)) as real)) as real
  }

  function Scaled(alpha: real, w: real): real {
    (1.0 - alpha / 2.0) * w
  }

  /** `slowdown`: `first` when this is the first decrease of the connection. */
  function Slowdown(w: Window, c: CutConfig, cut: Cut, first: bool, afterTimeout: bool): Window {
    var slowstart := w.cwnd < w.ssthresh as real;
    var half, decreased := HalfWin(w, c), DecreaseWin(w, c);
    var scaled := Scaled(c.alpha, Windowd(w));
    var ssthresh := match cut
      case DctcpCut => Trunc(scaled)
      case OneCut => w.ssthresh
      case _ => if first || slowstart || afterTimeout then Trunc(half) else Trunc(decreased);
    var cwnd := match cut
      case HalfCut => if first || slowstart || c.decreaseNum == 0.5 then half else decreased
      case DctcpCut => scaled
      case RestartCut => Trunc(c.wndRestart) as real
      case OneCut => 1.0;
    Window(AtLeastOne(cwnd), w.wnd, AtLeastTwo(ssthresh))
  }

  lemma ScaledBetween(alpha: real, w: real)
    requires 0.0 <= alpha <= 1.0 && 0.0 <= w
    ensures w / 2.0 <= Scaled(alpha, w) <= w
    ensures Scaled(0.0, w) == w && Scaled(1.0, w) == w / 2.0
  {
    FractionOf(alpha, w / 2.0);
    assert Scaled(alpha, w) == w - alpha * (w / 2.0);
  }

  lemma TruncMonotone(x: real, y: real)
    requires 0.0 <= x <= y
    ensures 0 <= Trunc(x) <= Trunc(y) && Trunc(x) as real <= x
  {}

  /** A DCTCP cut leaves the window between half of itself and itself, with a floor
      of one packet; the two extremes are no marks and all marks. */
  lemma DctcpCutBounds(w: Window, c: CutConfig, first: bool, afterTimeout: bool)
    requires 0.0 <= c.alpha <= 1.0 && 0.0 <= Windowd(w)
    ensures var w' := Slowdown(w, c, DctcpCut, first, afterTimeout);
            && AtLeastOne(Windowd(w) / 2.0) <= w'.cwnd <= AtLeastOne(Windowd(w))
            && 2 <= w'.ssthresh <= AtLeastTwo(Trunc(Windowd(w)))
            && (c.alpha == 0.0 ==> w'.cwnd == AtLeastOne(Windowd(w)))
            && (c.alpha == 1.0 ==> w'.cwnd == AtLeastOne(Windowd(w) / 2.0))
  {
    var win := Windowd(w);
    ScaledBetween(c.alpha, win);
    TruncMonotone(Scaled(c.alpha, win), win);
    hide Scaled, Trunc, HalfWin, DecreaseWin;
    assert Slowdown(w, c, DctcpCut, first, afterTimeout) ==
           Window(AtLeastOne(Scaled(c.alpha, win)), w.wnd, AtLeastTwo(Trunc(Scaled(c.alpha, win))));
  }

  lemma HalfAndDecreaseBounds(w: Window, c: CutConfig)
    requires 0.0 <= c.decreaseNum <= 1.0 && 0.0 <= Windowd(w)
    ensures 0.0 <= HalfWin(w, c) <= Windowd(w) && 0.0 <= DecreaseWin(w, c) <= Windowd(w)
  {
    hide Trunc, Windowd, Part;
    var win, whole := Windowd(w), Trunc(Windowd(w)) as real;
    TruncMonotone(win, win);
    PartBounds(c.decreaseNum, win);
    TruncMonotone(whole / 2.0, whole);
    PartBounds(c.decreaseNum, whole);
  }

  lemma PartBounds(x: real, whole: real)
    requires 0.0 <= x <= 1.0 && 0.0 <= whole
    ensures 0.0 <= Part(x, whole) <= whole
    ensures 0.0 <= Trunc(Part(x, whole)) as real <= whole
  {
    FractionOf(x, whole);
    TruncMonotone(x * whole, x * whole);
  }

  /** No cut ever opens the window past what it was, or past the restart window. */
  lemma CutsNeverGrow(w: Window, c: CutConfig, cut: Cut, first: bool, afterTimeout: bool)
    requires 0.0 <= c.alpha <= 1.0 && 0.0 <= c.decreaseNum <= 1.0 && 0.0 <= Windowd(w) && 0.0 <= c.wndRestart
    ensures var w' := Slowdown(w, c, cut, first, afterTimeout);
            && 1.0 <= w'.cwnd && 2 <= w'.ssthresh
            && (w'.cwnd <= AtLeastOne(Windowd(w)) || (cut.RestartCut? && w'.cwnd <= c.wndRestart))
  {
    ScaledBetween(c.alpha, Windowd(w));
    HalfAndDecreaseBounds(w, c);
    TruncMonotone(c.wndRestart, c.wndRestart);
    hide Scaled, Trunc, HalfWin, DecreaseWin;
  }
}
