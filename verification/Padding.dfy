/** Formatter options and the layout of a number under them. */
module Padding {
  import opened Words
  import opened Sequences

  datatype Alignment = Left | Right | Center

  datatype FormatOptions = FormatOptions(
    fill: char, align: Option<Alignment>, width: Option<nat>, precision: Option<nat>,
    signPlus: bool, signAwareZeroPad: bool)

  const DEFAULT := FormatOptions(' ', None, None, None, false, false)

  function OrZero(x: Option<nat>): nat {
    match x case None => 0 case Some(n) => n
  }

  function Max(a: nat, b: nat): nat {
    if a < b then b else a
  }

  function SignText(negative: bool, o: FormatOptions): string {
    if negative then "-" else if o.signPlus then "+" else ""
  }

  /** A printed number, piece by piece. */
  datatype Layout = Layout(left: string, sign: string, zeros: string, number: string, suffix: string, right: string)

  function Join(l: Layout): string {
    l.left + l.sign + l.zeros + l.number + l.suffix + l.right
  }

  /** How missing width is made up: zeros behind the sign, or fill on the sides of the alignment. */
  function LayOut(sign: string, number: string, suffix: string, o: FormatOptions): Layout {
    var natural := |sign| + |number| + |suffix|;
    var pad := Max(OrZero(o.width), natural) - natural;
    if o.signAwareZeroPad then Layout("", sign, Repeat('0', pad), number, suffix, "")
    else
      var left := match o.align case Some(Left) => 0 case Some(Center) => pad / 2 case _ => pad;
      Layout(Repeat(o.fill, left), sign, "", number, suffix, Repeat(o.fill, pad - left))
  }

  /** The text is exactly as wide as requested or needed, whichever is more. */
  lemma WidthExact(sign: string, number: string, suffix: string, o: FormatOptions)
    ensures |Join(LayOut(sign, number, suffix, o))| == Max(OrZero(o.width), |sign| + |number| + |suffix|)
  {
  }

  /** Padding to the left and to the right of a number of some width. */
  function Pads(numWidth: nat, o: FormatOptions): (r: (nat, nat))
    ensures r.0 + r.1 == Max(OrZero(o.width), numWidth) - numWidth
    ensures o.signAwareZeroPad || o.align == None || o.align == Some(Right) ==> r.1 == 0
    ensures !o.signAwareZeroPad && o.align == Some(Left) ==> r.0 == 0
    ensures !o.signAwareZeroPad && o.align == Some(Center) ==> r.0 <= r.1 <= r.0 + 1
  {
    var width := OrZero(o.width);
    var align := match o.align case None => Right case Some(a) => a;
    if numWidth >= width then (0, 0)
    else if o.signAwareZeroPad || align == Right then (width - numWidth, 0)
    else if align == Left then (0, width - numWidth)
    else ((width - numWidth) / 2, (width - numWidth + 1) / 2)
  }

  lemma PadsOfLayout(sign: string, number: string, suffix: string, o: FormatOptions)
    ensures var l := LayOut(sign, number, suffix, o);
            var pads := Pads(|sign| + |number| + |suffix|, o);
            && l.left == Repeat(o.fill, if o.signAwareZeroPad then 0 else pads.0)
            && l.zeros == Repeat('0', if o.signAwareZeroPad then pads.0 else 0)
            && l.right == Repeat(o.fill, pads.1)
            && (l.sign, l.number, l.suffix) == (sign, number, suffix)
  {
  }

  /** Appends copies of a character to a buffer (`repeat_char`). */
  method RepeatChar(buffer: string, c: char, count: nat) returns (text: string)
    ensures text == buffer + Repeat(c, count)
  {
    text := buffer;
    for i := 0 to count
      invariant text == buffer + Repeat(c, i)
    {
      text := text + [c];
    }
  }
}
