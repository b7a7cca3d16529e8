/** The rendering helpers of maps_dashboard/plotting.py: the format to MIME
    type table and the `plotbytes` wrapper that selects the output format,
    the figure-width and line-count helpers, label wrapping, and the
    font-fitting loop `maximizeText`.

    The renderer itself is not modelled: a wrapped plot function is a function
    from its keyword arguments to the figure it would draw (or the exception it
    raises), and `textwrap.wrap` is a parameter of type TextWrap. */
module Plotting {
  import opened Base

  /** `MIMETYPES`. */
  const MimeTypes: map<string, string> := map[
    "png" := "image/png",
    "jpg" := "image/jpg",
    "pdf" := "application/pdf",
    "ps" := "application/postscript",
    "svg" := "image/svg+xml"
  ]

  /* ---------------------------------------------------------------------- */
  /* plotbytes                                                               */
  /* ---------------------------------------------------------------------- */

  /** A keyword-argument value, as the routes pass them. */
  datatype Arg = NoneArg | BoolArg(b: bool) | IntArg(i: int) | StrArg(s: string)

  /** Python truthiness of a keyword-argument value. */
  predicate Truthy(a: Arg)
  {
    match a
    case NoneArg => false
    case BoolArg(b) => b
    case IntArg(i) => i != 0
    case StrArg(s) => s != ""
  }

  /** `kwargs.get(k)`. */
  function KwGet(kwargs: map<string, Arg>, k: string): Arg
  {
    if k in kwargs then kwargs[k] else NoneArg
  }

  /** The output format `plotbytes` settles on: a missing or falsy format is
      "png"; anything that is not a key of MIMETYPES raises KeyError, which is
      re-raised as NotImplementedError. */
  function ResolveFormat(kwargs: map<string, Arg>): (r: Result<string, Exc>)
    ensures !Truthy(KwGet(kwargs, "format")) ==> r == Ok("png")
    ensures Truthy(KwGet(kwargs, "format")) ==>
              (r.Ok? <==> KwGet(kwargs, "format").StrArg? && KwGet(kwargs, "format").s in MimeTypes)
    ensures r.Ok? && Truthy(KwGet(kwargs, "format")) ==> r.value == KwGet(kwargs, "format").s
    ensures r.Ok? ==> r.value in MimeTypes
    ensures r.Err? ==> r.error == NotImplementedError
  {
    var f := KwGet(kwargs, "format");
    if !Truthy(f) then Ok("png")
    else if f.StrArg? && f.s in MimeTypes then Ok(f.s)
    else Err(NotImplementedError)
  }

  /** `{k: v for k, v in kwargs.items() if k != "format"}`. */
  function Forwarded(kwargs: map<string, Arg>): (r: map<string, Arg>)
    ensures "format" !in r
    ensures forall k :: k in r <==> k in kwargs && k != "format"
    ensures forall k :: k in r ==> r[k] == kwargs[k]
  {
    map k | k in kwargs && k != "format" :: kwargs[k]
  }

  /** What a wrapped plot function returns: the figure, the format it is
      saved in and the MIME type. */
  datatype Plot<T> = Plot(figure: T, format: string, mimetype: string)

  /** A call of a function decorated with `plotbytes`. The format is resolved
      before `draw` runs, and `draw` sees the keyword arguments without
      "format". */
  function PlotBytes<T>(kwargs: map<string, Arg>, draw: map<string, Arg> -> Result<T, Exc>): (r: Result<Plot<T>, Exc>)
    ensures ResolveFormat(kwargs).Err? ==> r == Err(NotImplementedError)
    ensures r.Ok? <==> ResolveFormat(kwargs).Ok? && draw(Forwarded(kwargs)).Ok?
    ensures r.Ok? ==> && ResolveFormat(kwargs) == Ok(r.value.format)
                      && r.value.mimetype == MimeTypes[r.value.format]
                      && draw(Forwarded(kwargs)) == Ok(r.value.figure)
    ensures ResolveFormat(kwargs).Ok? && draw(Forwarded(kwargs)).Err? ==> r == Err(draw(Forwarded(kwargs)).error)
  {
    match ResolveFormat(kwargs)
    case Err(e) => Err(e)
    case Ok(format) =>
      match draw(Forwarded(kwargs))
      case Err(e) => Err(e)
      case Ok(fig) => Ok(Plot(fig, format, MimeTypes[format]))
  }

  /** An unsupported format is rejected whatever the plot function would do:
      nothing is drawn for it. */
  lemma PlotBytesRejectsBeforeDrawing<T>(kwargs: map<string, Arg>,
                                         draw1: map<string, Arg> -> Result<T, Exc>,
                                         draw2: map<string, Arg> -> Result<T, Exc>)
    requires ResolveFormat(kwargs).Err?
    ensures PlotBytes(kwargs, draw1) == PlotBytes(kwargs, draw2) == Err(NotImplementedError)
  {
  }

  /** With no format the plot is a PNG. */
  lemma PlotBytesDefaultsToPng<T>(kwargs: map<string, Arg>, draw: map<string, Arg> -> Result<T, Exc>)
    requires "format" !in kwargs || kwargs["format"] == StrArg("")
    requires draw(Forwarded(kwargs)).Ok?
    ensures PlotBytes(kwargs, draw).Ok?
    ensures PlotBytes(kwargs, draw).value.format == "png"
    ensures PlotBytes(kwargs, draw).value.mimetype == "image/png"
  {
  }

  /* ---------------------------------------------------------------------- */
  /* calcwidth, nlines, wrap                                                 */
  /* ---------------------------------------------------------------------- */

  /** `calcwidth(series)`: `max(6, 2.2 * len(series.unique()))`. */
  function CalcWidth<T(==)>(series: seq<T>): (w: real)
    ensures w >= 6.0
    ensures |Distinct(series)| >= 3 ==> w == 2.2 * |Distinct(series)| as real
    ensures |Distinct(series)| <= 2 ==> w == 6.0
  {
    var n := |Distinct(series)| as real;
    if 2.2 * n > 6.0 then 2.2 * n else 6.0
  }

  /** A series with no fewer distinct values never gives a narrower figure. */
  lemma CalcWidthMonotone<T>(a: seq<T>, b: seq<T>)
    requires Distinct(a) <= Distinct(b)
    ensures CalcWidth(a) <= CalcWidth(b)
  {
    SubsetCard(Distinct(a), Distinct(b));
  }

  lemma {:induction false} SubsetCard<T>(a: set<T>, b: set<T>)
    requires a <= b
    ensures |a| <= |b|
    decreases |a|
  {
    if a != {} {
      var x :| x in a;
      SubsetCard(a - {x}, b - {x});
    }
  }

  /** `s.split(sep)`. */
  function Split(s: string, sep: char): (parts: seq<string>)
    ensures |parts| == Occurrences(s, sep) + 1
    ensures forall i :: 0 <= i < |parts| ==> sep !in parts[i]
  {
    if s == [] then [[]]
    else
      var rest := Split(s[1..], sep);
      if s[0] == sep then [[]] + rest else [[s[0]] + rest[0]] + rest[1..]
  }

  /** `sep.join(parts)`. */
  function Join(parts: seq<string>, sep: char): string
  {
    if parts == [] then []
    else if |parts| == 1 then parts[0]
    else parts[0] + [sep] + Join(parts[1..], sep)
  }

  /** Joining the pieces of a split gives back the string. */
  lemma {:induction false} JoinSplit(s: string, sep: char)
    ensures Join(Split(s, sep), sep) == s
  {
    if s != [] {
      JoinSplit(s[1..], sep);
      var rest := Split(s[1..], sep);
      if s[0] == sep {
        assert Split(s, sep) == [[]] + rest;
        JoinCons([], rest, sep);
        assert s == [sep] + s[1..];
      } else {
        assert Split(s, sep) == [[s[0]] + rest[0]] + rest[1..];
        JoinExtendHead(s[0], rest, sep);
        assert s == [s[0]] + s[1..];
      }
    }
  }

  lemma JoinCons(p: string, rest: seq<string>, sep: char)
    requires rest != []
    ensures Join([p] + rest, sep) == p + [sep] + Join(rest, sep)
  {
    assert ([p] + rest)[1..] == rest;
  }

  /** Putting a character in front of the first piece puts it in front of
      the joined string. */
  lemma JoinExtendHead(c: char, parts: seq<string>, sep: char)
    requires parts != []
    ensures Join([[c] + parts[0]] + parts[1..], sep) == [c] + Join(parts, sep)
  {
    var q := [[c] + parts[0]] + parts[1..];
    if |parts| == 1 {
      assert q == [[c] + parts[0]];
    } else {
      assert q[1..] == parts[1..];
      assert Join(q, sep) == ([c] + parts[0]) + [sep] + Join(parts[1..], sep);
    }
  }

  /** `nlines(s)`: the number of lines, one more than the number of newlines. */
  function NLines(s: string): (n: nat)
    ensures n == Occurrences(s, '\n') + 1
    ensures n >= 1
  {
    |Split(s, '\n')|
  }

  /** `textwrap.wrap(text, width)`: breaks a text into lines. Its algorithm is
      not modelled; every function of this type can stand for it. */
  type TextWrap = (string, int) -> seq<string>

  /** `wrap(label)`: the label wrapped at 16 characters, one line per row. */
  function Wrap(tw: TextWrap, name: string): string
  {
    Join(tw(name, 16), '\n')
  }

  /** `nlwrap(txt, lnsize)`. */
  function NlWrap(tw: TextWrap, txt: string, lnsize: int): string
  {
    Join(tw(txt, lnsize), '\n')
  }

  /** `wrapped(labels)`: one wrapped label per label, in the same order. */
  function Wrapped(tw: TextWrap, labels: seq<string>): (r: seq<string>)
    ensures |r| == |labels|
    ensures forall i :: 0 <= i < |labels| ==> r[i] == Wrap(tw, labels[i])
  {
    if labels == [] then [] else [Wrap(tw, labels[0])] + Wrapped(tw, labels[1..])
  }

  /* ---------------------------------------------------------------------- */
  /* maximizeText                                                            */
  /* ---------------------------------------------------------------------- */

  /** The longest of a non-empty list of lines. */
  function MaxLen(lines: seq<string>): (m: nat)
    requires lines != []
    ensures forall i :: 0 <= i < |lines| ==> |lines[i]| <= m
    ensures exists i :: 0 <= i < |lines| && |lines[i]| == m
  {
    if |lines| == 1 then |lines[0]|
    else
      var rest := MaxLen(lines[1..]);
      assert forall i :: 1 <= i < |lines| ==> lines[i] == lines[1..][i - 1];
      if |lines[0]| >= rest then |lines[0]| else rest
  }

  /** The longest line of a text. */
  function MaxLineLen(s: string): nat
  {
    MaxLen(Split(s, '\n'))
  }

  /** maximizeText's inner `calcwidth(string, fontsize)`, in tenths of a
      point: the widest line's length times the font size (for a non-negative
      font size the maximum of the products is the product with the maximum). */
  function TextWidth(s: string, tenths: int): int
  {
    MaxLineLen(s) * tenths
  }

  /** `linewidth(fontsize)`: `floor(width / fontsize)` with the font size in
      tenths. */
  function LineWidth(width: int, tenths: int): int
    requires tenths > 0
  {
    (10 * width) / tenths
  }

  /** The growth branch: raise the size one tenth at a time from `f` until the
      text reaches the box width, or cap it at `max10` once it passes it. */
  function GrowTenths(len: nat, width10: int, f: int, max10: int): int
    decreases max10 - f
  {
    var g := f + 1;
    if g > max10 then max10
    else if len * g >= width10 then g
    else GrowTenths(len, width10, g, max10)
  }

  /** The growth branch ends at the first size above `f` at which the text is
      at least as wide as the box, unless the cap comes first. */
  lemma {:induction false} GrowTenthsSpec(len: nat, width10: int, f: int, max10: int)
    ensures GrowTenths(len, width10, f, max10) <= max10
    ensures GrowTenths(len, width10, f, max10) > f || GrowTenths(len, width10, f, max10) == max10
    ensures GrowTenths(len, width10, f, max10) == max10 || len * GrowTenths(len, width10, f, max10) >= width10
    ensures forall g :: f < g < GrowTenths(len, width10, f, max10) ==> len * g < width10
    decreases max10 - f
  {
    var g := f + 1;
    if g <= max10 && len * g < width10 {
      GrowTenthsSpec(len, width10, g, max10);
    }
  }

  /** The font size, in tenths, that maximizeText settles on. */
  function FittedTenths(text: string, width: int, minsize: int, maxsize: int): int
  {
    var len, min10 := MaxLineLen(text), 10 * minsize;
    if len * min10 < 10 * width then GrowTenths(len, 10 * width, min10, 10 * maxsize) else min10
  }

  /** The fitted size lies between the minimum and the maximum; a text already
      as wide as the box at the minimum keeps the minimum; otherwise the size is
      the smallest tenth above the minimum that fills the box, or the maximum. */
  lemma FittedTenthsSpec(text: string, width: int, minsize: int, maxsize: int)
    requires 0 < minsize && 0 < maxsize
    ensures FittedTenths(text, width, minsize, maxsize) > 0
    ensures minsize <= maxsize ==>
              10 * minsize <= FittedTenths(text, width, minsize, maxsize) <= 10 * maxsize
    ensures MaxLineLen(text) * minsize >= width ==> FittedTenths(text, width, minsize, maxsize) == 10 * minsize
    ensures MaxLineLen(text) * minsize < width ==>
              var f := FittedTenths(text, width, minsize, maxsize);
              && (f == 10 * maxsize || MaxLineLen(text) * f >= 10 * width)
              && (forall g :: 10 * minsize < g < f ==> MaxLineLen(text) * g < 10 * width)
  {
    var len := MaxLineLen(text);
    TimesTen(len, minsize);
    GrowTenthsSpec(len, 10 * width, 10 * minsize, 10 * maxsize);
  }

  lemma TimesTen(a: int, b: int)
    ensures a * (10 * b) == 10 * (a * b)
  {
  }

  /** Integer division determined by quotient and remainder. */
  lemma DivUnique(n: int, d: int, q: int, r: int)
    requires d > 0 && n == d * q + r && 0 <= r < d
    ensures n / d == q
  {
    var q', r' := n / d, n % d;
    assert n == d * q' + r' && 0 <= r' < d;
    assert d * (q - q') == r' - r;
    if q > q' {
      MulAtLeast(d, q - q');
    } else if q < q' {
      MulAtLeast(d, q' - q);
    }
  }

  lemma MulAtLeast(d: int, x: int)
    requires d > 0 && x >= 1
    ensures d * x >= d
  {
  }

  lemma ScaledDivision(w: int, m: int)
    requires m > 0
    ensures (10 * w) / (10 * m) == w / m
  {
    var q, r := w / m, w % m;
    assert w == m * q + r && 0 <= r < m;
    assert 10 * w == (10 * m) * q + 10 * r;
    DivUnique(10 * w, 10 * m, q, 10 * r);
  }

  /** A floor quotient by a positive divisor is at least one exactly when the
      dividend reaches the divisor. */
  lemma DivAtLeastOne(n: int, d: int)
    requires d > 0
    ensures n / d >= 1 <==> n >= d
  {
    var q, r := n / d, n % d;
    assert n == d * q + r && 0 <= r < d;
    if q >= 1 {
      MulAtLeast(d, q);
    } else {
      MulAtMostZero(d, q);
    }
  }

  lemma MulAtMostZero(d: int, x: int)
    requires d > 0 && x <= 0
    ensures d * x <= 0
  {
  }

  /** Lines 59-69 of `maximizeText`, entered when the text at the minimum
      size is at least as wide as the box: while it is wider, the joined lines
      are rewrapped at `floor(width / fontsize)` characters and the size drops
      a tenth, until it falls below the minimum and is reset to it. The result
      is the size in tenths; `textwrap.wrap` raises ValueError for a width
      below one. */
  method ShrinkTenths(tw: TextWrap, text: string, width: int, minsize: int) returns (r: Result<int, Exc>)
    requires 0 < minsize
    requires MaxLineLen(text) * minsize >= width
    ensures r.Err? <==> MaxLineLen(text) * minsize > width && width < minsize
    ensures r.Err? ==> r.error == ValueError
    ensures r.Ok? ==> r.value == 10 * minsize
  {
    var min10, width10 := 10 * minsize, 10 * width;
    TimesTen(MaxLineLen(text), minsize);
    var f := min10;
    var cwidth := TextWidth(text, min10);
    var lines := [text];
    while cwidth > width10
      invariant f == min10 ==> lines == [text] && cwidth == TextWidth(text, min10)
      invariant f == min10 || (f == min10 - 1 && cwidth > width10 && minsize <= width)
      decreases f - min10 + 2
    {
      var joined := Join(lines, ' ');
      cwidth := TextWidth(joined, f);
      var lw := LineWidth(width, f);
      DivAtLeastOne(width10, f);
      if lw < 1 {
        assert f == min10 && width < minsize;
        return Err(ValueError);
      }
      lines := tw(joined, lw);
      if f < min10 {
        f := min10;
        break;
      } else {
        f := f - 1;
      }
    }
    return Ok(f);
  }

  /** `maximizeText(string, width, height, minsize, maxsize)`: returns the line
      width in characters and the floor of the fitted font size (not the
      wrapped text its documentation promises). `height` is never read. The
      shrinking branch fails with ValueError when its first wrap width is 0. */
  method MaximizeText(tw: TextWrap, text: string, width: int, height: int, minsize: int, maxsize: int)
    returns (r: Result<(int, int), Exc>)
    requires 0 < minsize && 0 < maxsize
    ensures FittedTenths(text, width, minsize, maxsize) > 0
    ensures r.Err? <==> MaxLineLen(text) * minsize > width && width < minsize
    ensures r.Err? ==> r.error == ValueError
    ensures r.Ok? ==> r.value.0 == LineWidth(width, FittedTenths(text, width, minsize, maxsize))
    ensures r.Ok? ==> r.value.1 == FittedTenths(text, width, minsize, maxsize) / 10
    ensures r.Ok? && minsize <= maxsize ==> minsize <= r.value.1 <= maxsize
    ensures r.Ok? && MaxLineLen(text) * minsize >= width ==> r.value == (width / minsize, minsize)
  {
    var min10, max10, width10 := 10 * minsize, 10 * maxsize, 10 * width;
    ghost var len := MaxLineLen(text);
    ghost var target := FittedTenths(text, width, minsize, maxsize);
    FittedTenthsSpec(text, width, minsize, maxsize);
    TimesTen(len, minsize);
    var f := min10;
    var cwidth := TextWidth(text, min10);
    if cwidth < width10 {
      while cwidth < width10
        invariant min10 <= f && (f == min10 || f <= max10)
        invariant cwidth == len * f
        invariant cwidth < width10 ==> GrowTenths(len, width10, f, max10) == target
        invariant cwidth >= width10 ==> f == target
        decreases max10 - f
      {
        f := f + 1;
        cwidth := TextWidth(text, f);
        if f > max10 {
          f := max10;
          break;
        }
      }
    } else {
      var shrunk := ShrinkTenths(tw, text, width, minsize);
      if shrunk.Err? {
        return Err(shrunk.error);
      }
      f := shrunk.value;
    }
    assert f == target;
    if len * minsize >= width {
      ScaledDivision(width, minsize);
    }
    return Ok((width10 / f, f / 10));
  }
}
