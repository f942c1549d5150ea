/** Feature derivation of ml_trading_overlay/generate_derived_variables.cpp:
    the CSV row reader (`parse_csv_row`), the exponential moving average
    (`ema`) and the 14-period relative strength index (`rsi14`). Prices are
    modelled as `real`; NaN entries of `rsi14` are `None`. */
module DerivedVariables {
  import opened Wrappers
  import opened Decimal

  // ---------------------------------------------------------------------
  // parse_csv_row

  /** The pieces of `s` between commas, in order: one more piece than
      there are commas, empty pieces included. */
  function Pieces(s: string): (ps: seq<string>)
    ensures |ps| >= 1
    decreases |s|
  {
    if s == [] then [""]
    else
      var p := Pieces(s[..|s| - 1]);
      if s[|s| - 1] == ',' then p + [""]
      else p[..|p| - 1] + [p[|p| - 1] + [s[|s| - 1]]]
  }

  /** The tokens `std::getline(ss, tok, ',')` produces: every piece, except
      that an empty last piece (after a trailing comma, or of an empty line)
      yields no token. */
  function Tokens(line: string): seq<string> {
    var ps := Pieces(line);
    if ps[|ps| - 1] == "" then ps[..|ps| - 1] else ps
  }

  /** Pieces joined back with commas. */
  function Join(ps: seq<string>): string
    requires |ps| >= 1
  {
    if |ps| == 1 then ps[0] else Join(ps[..|ps| - 1]) + "," + ps[|ps| - 1]
  }

  predicate NoComma(s: string) {
    forall i :: 0 <= i < |s| ==> s[i] != ','
  }

  lemma JoinAppend(ps: seq<string>, q: string)
    requires |ps| >= 1
    ensures Join(ps + [q]) == Join(ps) + "," + q
  {
    assert (ps + [q])[..|ps|] == ps;
  }

  lemma JoinExtendLast(init: seq<string>, last: string, c: char)
    ensures Join(init + [last + [c]]) == Join(init + [last]) + [c]
  {
    if init == [] {
      assert init + [last + [c]] == [last + [c]];
      assert init + [last] == [last];
    } else {
      JoinAppend(init, last + [c]);
      JoinAppend(init, last);
      var x := Join(init) + ",";
      assert x + (last + [c]) == (x + last) + [c];
    }
  }

  /** Splitting and joining are inverse. */
  lemma {:induction false} JoinPieces(s: string)
    ensures Join(Pieces(s)) == s
  {
    if s != [] {
      var init, c := s[..|s| - 1], s[|s| - 1];
      var p := Pieces(init);
      JoinPieces(init);
      assert init + [c] == s;
      if c == ',' {
        JoinAppend(p, "");
      } else {
        var front, last := p[..|p| - 1], p[|p| - 1];
        assert front + [last] == p;
        JoinExtendLast(front, last, c);
      }
    }
  }

  /** No piece holds a comma. */
  lemma {:induction false} PiecesNoComma(s: string)
    ensures forall j :: 0 <= j < |Pieces(s)| ==> NoComma(Pieces(s)[j])
  {
    if s != [] {
      var init, c := s[..|s| - 1], s[|s| - 1];
      var p, q := Pieces(init), Pieces(s);
      PiecesNoComma(init);
      if c != ',' {
        assert q[..|q| - 1] == p[..|p| - 1];
        assert NoComma(q[|q| - 1]) by {
          assert q[|q| - 1] == p[|p| - 1] + [c];
        }
      }
    }
  }

  /** The tokens lose only a trailing comma: joined back they give the line,
      minus its last character when that is a comma. Empty inner fields are
      therefore kept. */
  lemma TokensJoin(line: string)
    ensures Tokens(line) == [] <==> line == []
    ensures line != [] && line[|line| - 1] == ',' ==> Join(Tokens(line)) + "," == line
    ensures line != [] && line[|line| - 1] != ',' ==> Join(Tokens(line)) == line
    ensures forall j :: 0 <= j < |Tokens(line)| ==> NoComma(Tokens(line)[j])
  {
    var ps := Pieces(line);
    PiecesNoComma(line);
    assert forall j :: 0 <= j < |Tokens(line)| ==> Tokens(line)[j] == ps[j];
    if line != [] {
      var init, c := line[..|line| - 1], line[|line| - 1];
      assert init + [c] == line;
      if c == ',' {
        assert ps[..|ps| - 1] == Pieces(init);
        JoinPieces(init);
      } else {
        assert ps[|ps| - 1] != "" by {
          var p := Pieces(init);
          assert ps[|ps| - 1] == p[|p| - 1] + [c];
        }
        JoinPieces(line);
      }
    }
  }

  /** The `getline` loop of `parse_csv_row`. */
  method Tokenize(line: string) returns (t: seq<string>)
    ensures t == Tokens(line)
  {
    t := [];
    var cur := "";
    for i := 0 to |line|
      invariant t + [cur] == Pieces(line[..i])
    {
      assert line[..i + 1][..i] == line[..i];
      if line[i] == ',' {
        t := t + [cur];
        cur := "";
      } else {
        cur := cur + [line[i]];
      }
    }
    assert line[..|line|] == line;
    if cur != "" {
      t := t + [cur];
    }
  }

  /** The six fields of an accepted row, as text. */
  datatype RawRow = RawRow(timeIso: string, open: string, high: string, low: string, close: string, volume: string)

  /** The acceptance rule: at least six tokens, and an open field that is
      not empty and starts with a digit (which also turns away the header
      and negative opens). The extra exception for an open of exactly `"0"`
      can never fire, since `"0"` starts with a digit. */
  function AcceptRow(t: seq<string>): (row: Option<RawRow>)
    ensures row.Some? <==> |t| >= 6 && t[1] != [] && IsDigit(t[1][0])
    ensures row.Some? ==> row.value == RawRow(t[0], t[1], t[2], t[3], t[4], t[5])
  {
    if |t| < 6 then None
    else if !IsDigit(if t[1] == [] then 'x' else t[1][0]) && t[1] != "0" then None
    else Some(RawRow(t[0], t[1], t[2], t[3], t[4], t[5]))
  }

  /** `parse_csv_row`, without the `std::stod` conversions. */
  method ParseCsvRow(line: string) returns (row: Option<RawRow>)
    ensures row == AcceptRow(Tokens(line))
    ensures row.Some? ==> line != []
  {
    var t := Tokenize(line);
    TokensJoin(line);
    row := AcceptRow(t);
  }

  // ---------------------------------------------------------------------
  // ema

  /** One step of the average: `a * x + (1 - a) * prev`. */
  function EmaStep(a: real, xi: real, prev: real): real {
    a * xi + (1.0 - a) * prev
  }

  /** The first `k` values of the average with smoothing factor `a`:
      `e[0] = x[0]` and `e[i] = a * x[i] + (1 - a) * e[i - 1]`. */
  function EmaPrefix(x: seq<real>, a: real, k: nat): (e: seq<real>)
    requires 1 <= k <= |x|
    ensures |e| == k && e[0] == x[0]
    decreases k
  {
    if k == 1 then [x[0]]
    else
      var p := EmaPrefix(x, a, k - 1);
      p + [EmaStep(a, x[k - 1], p[k - 2])]
  }

  function Alpha(n: int): real
    requires n > 0
  {
    2.0 / (n as real + 1.0)
  }

  /** What `ema(x, n)` returns: all zeros when `x` is empty or `n <= 0`. */
  function EmaSeries(x: seq<real>, n: int): (e: seq<real>)
    ensures |e| == |x|
    ensures n <= 0 ==> forall i :: 0 <= i < |e| ==> e[i] == 0.0
    ensures n > 0 && |x| > 0 ==> e[0] == x[0]
  {
    if |x| == 0 || n <= 0 then seq(|x|, _ => 0.0) else EmaPrefix(x, Alpha(n), |x|)
  }

  lemma AlphaRange(n: int)
    requires n > 0
    ensures 0.0 < Alpha(n) <= 1.0
  {
  }

  lemma MulNonneg(x: real, y: real)
    requires 0.0 <= x && 0.0 <= y
    ensures 0.0 <= x * y
  {
  }

  /** One step mixes two values in `[lo, hi]` and stays there. */
  lemma StepBounded(a: real, u: real, w: real, lo: real, hi: real)
    requires 0.0 < a <= 1.0 && lo <= u <= hi && lo <= w <= hi
    ensures lo <= EmaStep(a, u, w) <= hi
  {
    MulNonneg(a, u - lo);
    MulNonneg(1.0 - a, w - lo);
    MulNonneg(a, hi - u);
    MulNonneg(1.0 - a, hi - w);
    assert EmaStep(a, u, w) - lo == a * (u - lo) + (1.0 - a) * (w - lo);
    assert hi - EmaStep(a, u, w) == a * (hi - u) + (1.0 - a) * (hi - w);
  }

  /** For `n >= 1` the average is a running convex combination, so it stays
      within any bounds the input keeps. */
  lemma {:induction false} EmaPrefixBounded(x: seq<real>, a: real, k: nat, lo: real, hi: real)
    requires 1 <= k <= |x| && 0.0 < a <= 1.0
    requires forall i :: 0 <= i < |x| ==> lo <= x[i] <= hi
    ensures forall i :: 0 <= i < k ==> lo <= EmaPrefix(x, a, k)[i] <= hi
  {
    if k > 1 {
      EmaPrefixBounded(x, a, k - 1, lo, hi);
      var p := EmaPrefix(x, a, k - 1);
      var v := EmaStep(a, x[k - 1], p[k - 2]);
      StepBounded(a, x[k - 1], p[k - 2], lo, hi);
      assert EmaPrefix(x, a, k) == p + [v];
      forall i | 0 <= i < k ensures lo <= EmaPrefix(x, a, k)[i] <= hi {
        if i < k - 1 {
          assert EmaPrefix(x, a, k)[i] == p[i];
        }
      }
    }
  }

  lemma EmaBounded(x: seq<real>, n: int, lo: real, hi: real)
    requires n > 0
    requires forall i :: 0 <= i < |x| ==> lo <= x[i] <= hi
    ensures forall i :: 0 <= i < |x| ==> lo <= EmaSeries(x, n)[i] <= hi
  {
    if |x| > 0 {
      AlphaRange(n);
      EmaPrefixBounded(x, Alpha(n), |x|, lo, hi);
    }
  }

  /** `ema`: fills a zeroed vector of the input's length in one pass. */
  method Ema(x: seq<real>, n: int) returns (e: seq<real>)
    ensures e == EmaSeries(x, n)
  {
    var buf := new real[|x|](_ => 0.0);
    if |x| == 0 || n <= 0 {
      return buf[..];
    }
    var a := 2.0 / (n as real + 1.0);
    assert a == Alpha(n);
    buf[0] := x[0];
    for i := 1 to |x|
      invariant buf[..i] == EmaPrefix(x, a, i)
    {
      ghost var p := EmaPrefix(x, a, i);
      assert buf[i - 1] == p[i - 1];
      assert EmaPrefix(x, a, i + 1) == p + [EmaStep(a, x[i], p[i - 1])];
      buf[i] := a * x[i] + (1.0 - a) * buf[i - 1];
      assert buf[i] == EmaStep(a, x[i], p[i - 1]);
      assert buf[..i + 1] == buf[..i] + [buf[i]];
    }
    assert buf[..] == buf[..|x|];
    return buf[..];
  }

  // ---------------------------------------------------------------------
  // rsi14

  const Period: nat := 14

  function Change(c: seq<real>, i: nat): real
    requires 1 <= i < |c|
  {
    c[i] - c[i - 1]
  }

  function Gain(c: seq<real>, i: nat): (g: real)
    requires 1 <= i < |c|
    ensures g >= 0.0
  {
    if Change(c, i) > 0.0 then Change(c, i) else 0.0
  }

  function Loss(c: seq<real>, i: nat): (l: real)
    requires 1 <= i < |c|
    ensures l >= 0.0
  {
    if Change(c, i) < 0.0 then -Change(c, i) else 0.0
  }

  /** Gains and losses over the changes `1..k`. */
  function SumGains(c: seq<real>, k: nat): (g: real)
    requires k < |c|
    ensures g >= 0.0
  {
    if k == 0 then 0.0 else SumGains(c, k - 1) + Gain(c, k)
  }

  function SumLosses(c: seq<real>, k: nat): (l: real)
    requires k < |c|
    ensures l >= 0.0
  {
    if k == 0 then 0.0 else SumLosses(c, k - 1) + Loss(c, k)
  }

  /** The smoothed average gain and loss at index `i`: plain means over the
      first 14 changes, then Wilder's `(avg * 13 + new) / 14`. */
  function Averages(c: seq<real>, i: nat): (avg: (real, real))
    requires Period <= i < |c|
    ensures avg.0 >= 0.0 && avg.1 >= 0.0
    decreases i
  {
    if i == Period then (SumGains(c, Period) / Period as real, SumLosses(c, Period) / Period as real)
    else
      var (ag, al) := Averages(c, i - 1);
      (Smooth(ag, Gain(c, i)), Smooth(al, Loss(c, i)))
  }

  /** Wilder's smoothing step `(avg * (N - 1) + next) / N` with N = 14. */
  function Smooth(avg: real, next: real): (s: real)
    ensures avg <= next ==> avg <= s <= next
    ensures next <= avg ==> next <= s <= avg
  {
    (avg * (Period - 1) as real + next) / Period as real
  }

  /** The index value: 100 when there is no average loss (the source's
      infinite `rs` gives `100 - 100 / inf`), else `100 - 100 / (1 + ag / al)`. */
  function RsiValue(ag: real, al: real): real
    requires ag >= 0.0 && al >= 0.0
  {
    if al == 0.0 then 100.0 else 100.0 - 100.0 / (1.0 + ag / al)
  }

  /** The index at `i` once defined. */
  function RsiAt(c: seq<real>, i: nat): real
    requires Period <= i < |c|
  {
    RsiValue(Averages(c, i).0, Averages(c, i).1)
  }

  /** The result vector once the entries before `k` are filled in. */
  ghost function RsiUpTo(c: seq<real>, k: nat): (r: seq<Option<real>>)
    ensures |r| == |c|
  {
    seq(|c|, i requires 0 <= i < |c| => if Period <= i < k then Some(RsiAt(c, i)) else None)
  }

  /** Filling in entry `k` extends the filled prefix by one. */
  lemma RsiUpToStep(c: seq<real>, k: nat)
    requires Period <= k < |c|
    ensures RsiUpTo(c, k + 1) == RsiUpTo(c, k)[k := Some(RsiAt(c, k))]
  {
  }

  /** What `rsi14(c)` returns. */
  function RsiSeries(c: seq<real>): (r: seq<Option<real>>)
    ensures |r| == |c|
  {
    seq(|c|, i requires 0 <= i < |c| => if |c| > Period && i >= Period then Some(RsiAt(c, i)) else None)
  }

  /** The index lies in [0, 100] and is 100 exactly when the average loss is
      zero. */
  lemma RsiValueRange(ag: real, al: real)
    requires ag >= 0.0 && al >= 0.0
    ensures 0.0 <= RsiValue(ag, al) <= 100.0
    ensures RsiValue(ag, al) == 100.0 <==> al == 0.0
  {
    if al > 0.0 {
      var rs := ag / al;
      assert rs >= 0.0;
      assert 100.0 / (1.0 + rs) > 0.0;
      assert 100.0 / (1.0 + rs) <= 100.0;
    }
  }

  /** The shape of `rsi14`: the first 14 entries are always NaN, all are when
      there are at most 14 prices, and every later entry is defined, in
      [0, 100], and 100 exactly when the average loss is zero. */
  lemma RsiShape(c: seq<real>, i: nat)
    requires i < |c|
    ensures i < Period || |c| <= Period ==> RsiSeries(c)[i] == None
    ensures |c| > Period && i >= Period ==>
              RsiSeries(c)[i].Some? && 0.0 <= RsiSeries(c)[i].value <= 100.0 &&
              (RsiSeries(c)[i].value == 100.0 <==> Averages(c, i).1 == 0.0)
  {
    if |c| > Period && i >= Period {
      RsiValueRange(Averages(c, i).0, Averages(c, i).1);
    }
  }

  /** The first loop of `rsi14`: gains and losses over the first 14
      changes. A zero change adds nothing to either sum. */
  method FirstSums(c: seq<real>) returns (g: real, l: real)
    requires Period < |c|
    ensures g == SumGains(c, Period) && l == SumLosses(c, Period)
  {
    g, l := 0.0, 0.0;
    for i := 1 to Period + 1
      invariant g == SumGains(c, i - 1) && l == SumLosses(c, i - 1)
    {
      var d := c[i] - c[i - 1];
      if d >= 0.0 {
        g := g + d;
      } else {
        l := l - d;
      }
    }
  }

  /** `rsi14`: a NaN-filled vector, the first averages from a loop over the
      first 14 changes, then one smoothing step per further price. */
  method Rsi14(c: seq<real>) returns (r: seq<Option<real>>)
    ensures r == RsiSeries(c)
  {
    var buf := new Option<real>[|c|](_ => None);
    if |c| <= Period {
      return buf[..];
    }
    var g, l := FirstSums(c);
    var ag, al := g / Period as real, l / Period as real;
    assert buf[..] == RsiUpTo(c, Period);
    RsiUpToStep(c, Period);
    buf[Period] := Some(RsiValue(ag, al));
    for i := Period + 1 to |c|
      invariant (ag, al) == Averages(c, i - 1)
      invariant buf[..] == RsiUpTo(c, i)
    {
      var d := c[i] - c[i - 1];
      var gain := if d > 0.0 then d else 0.0;
      var loss := if d < 0.0 then -d else 0.0;
      assert gain == Gain(c, i) && loss == Loss(c, i);
      ag, al := Smooth(ag, gain), Smooth(al, loss);
      RsiUpToStep(c, i);
      buf[i] := Some(RsiValue(ag, al));
    }
    assert RsiUpTo(c, |c|) == RsiSeries(c);
    return buf[..];
  }
}
