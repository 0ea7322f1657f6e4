/**
 * The Java text of stored objects (`String.valueOf(value)`, `value.toString()`),
 * which GET, INCR and the service read back.
 */
module Rendering {
  import opened Values
  import opened Numerals

  /** `s` without its trailing '0' characters. */
  function TrimTrailingZeros(s: string): string {
    if s != [] && s[|s| - 1] == '0' then TrimTrailingZeros(s[..|s| - 1]) else s
  }

  /**
   * `Double.toString` of a double holding the integer `x`: plain notation with
   * ".0" below 10^7, computerized scientific notation ("1.2345678E7") from 10^7 on.
   */
  function DoubleText(x: int): (r: string)
    ensures |r| > 0 && (r[0] == '-' <==> x < 0)
    ensures 'E' in r <==> !(-10_000_000 < x < 10_000_000)
  {
    var sign := if x < 0 then "-" else "";
    var a: nat := if x < 0 then -x else x;
    if a < 10_000_000 then sign + NatToString(a) + ".0"
    else
      var d := NatToString(a);
      var fraction := TrimTrailingZeros(d[1..]);
      sign + [d[0]] + "." + (if fraction == [] then "0" else fraction) + "E" + NatToString(|d| - 1)
  }

  /** Below 10^7 in magnitude, `Double.toString` of an integer is its `Integer.toString` text plus ".0". */
  lemma DoubleTextOfSmall(x: int)
    requires -10_000_000 < x < 10_000_000
    ensures DoubleText(x) == IntToString(x) + ".0"
  {
  }

  /** The body of `AbstractMap.toString`: "m1=1.0, m2=2.0". */
  function EntriesText(es: seq<Entry>): string {
    if es == [] then ""
    else
      var head := es[0].0 + "=" + DoubleText(es[0].1);
      if |es| == 1 then head else head + ", " + EntriesText(es[1..])
  }

  /**
   * `String.valueOf(o)`: the string itself, the decimal form of an Integer,
   * "{m=score, ...}" for a LinkedHashMap and Lombok's record form for an
   * ExpirableValue. The instant of an ExpirableValue is shown as its number.
   */
  function Text(o: Obj): (r: string)
    ensures o.Str? ==> r == o.s
    ensures o.ZSet? ==> |r| >= 2 && r[0] == '{' && r[|r| - 1] == '}'
    ensures o.Expirable? ==> |r| > 0 && r[0] == 'E'
    decreases o
  {
    match o
    case Str(s) => s
    case Num(n) => IntToString(n)
    case ZSet(es) => "{" + EntriesText(es) + "}"
    case Expirable(ev) =>
      var valueText := match ev.value case None => "null" case Some(v) => Text(v);
      var timeText := match ev.expireTime case None => "null" case Some(t) => IntToString(t);
      "ExpirableValue(value=" + valueText + ", expireTime=" + timeText + ")"
  }

  /** The text of a stored Integer parses back to that Integer. */
  lemma ParseTextOfNum(n: Int32)
    ensures ParseInt32(Text(Num(n))) == Some(n)
  {
    ParseIntToStringRoundTrip(n);
  }

  /** The text of a zset or of an ExpirableValue is never a number. */
  lemma ParseTextOfCompound(o: Obj)
    requires o.ZSet? || o.Expirable?
    ensures ParseInt32(Text(o)) == None
  {
    ParseRejectsForeignStart(Text(o));
  }
}
