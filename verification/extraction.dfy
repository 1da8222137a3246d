/** Formatted stream extraction (`operator>>`) and the one-pair-per-line file
    format. A stream is modelled by the text it has left to deliver. */
module Extraction {
  import opened Options
  import opened Strings
  import opened Pairs

  /** Leading whitespace skipped by formatted extraction. */
  function SkipSpace(s: string): (r: string)
    ensures |r| <= |s|
    ensures |r| > 0 ==> !IsSpace(r[0])
    decreases |s|
  {
    if |s| > 0 && IsSpace(s[0]) then SkipSpace(s[1..]) else s
  }

  /** What is skipped is whitespace and what is left is the rest of the text. */
  lemma {:induction false} SkipSpaceIsSuffix(s: string)
    ensures var r := SkipSpace(s); r == s[|s| - |r|..] && AllSpace(s[..|s| - |r|])
    decreases |s|
  {
    if |s| > 0 && IsSpace(s[0]) {
      SkipSpaceIsSuffix(s[1..]);
    }
  }

  /** Length of the longest whitespace-free prefix. */
  function TokenLength(s: string): (n: nat)
    ensures n <= |s| && NoSpace(s[..n])
    ensures n < |s| ==> IsSpace(s[n])
    decreases |s|
  {
    if |s| > 0 && !IsSpace(s[0]) then 1 + TokenLength(s[1..]) else 0
  }

  /** `in >> str`: skip whitespace, then take characters up to (not
      including) the next whitespace or the end. It fails exactly when
      nothing but whitespace is left. On success it returns the token and
      the text still unread. */
  function ReadToken(s: string): (r: Option<(string, string)>)
    ensures r.Some? ==> IsToken(r.value.0) && |r.value.1| < |s|
  {
    var t := SkipSpace(s);
    if |t| == 0 then
      None
    else
      var n := TokenLength(t);
      Some((t[..n], t[n..]))
  }

  /** What one extraction does, stated on the text: it fails exactly when
      only whitespace is left; otherwise the text is some whitespace, then
      the token, then the unread rest, which is empty or starts with
      whitespace (the token is as long as possible). */
  lemma ReadTokenSpec(s: string)
    ensures ReadToken(s).None? <==> AllSpace(s)
    ensures ReadToken(s).Some? ==>
      var (tok, rest) := ReadToken(s).value;
      var skipped := |s| - |rest| - |tok|;
      && 0 <= skipped
      && AllSpace(s[..skipped]) && s[skipped..] == tok + rest
      && (|rest| > 0 ==> IsSpace(rest[0]))
  {
    var t := SkipSpace(s);
    SkipSpaceIsSuffix(s);
    if |t| == 0 {
      assert s[..|s|] == s;
    } else {
      var n := TokenLength(t);
      assert t[..n] + t[n..] == t;
      assert !AllSpace(s) by {
        assert s[|s| - |t|] == t[0];
      }
    }
  }

  /** `in >> pair`, i.e. `in >> pair.key >> pair.value`: two tokens in a
      row. A key with no value after it makes the whole read fail. */
  function ReadPair(s: string): (r: Option<(Pair, string)>)
    ensures r.Some? ==> ValidPair(r.value.0) && |r.value.1| < |s|
  {
    match ReadToken(s)
    case None => None
    case Some((k, rest)) =>
      match ReadToken(rest)
      case None => None
      case Some((v, rest')) => Some((Pair(k, v), rest'))
  }

  /** Every pair the loop `while (in >> pair)` obtains before the first
      failed read. */
  function ParseAll(s: string): (ps: seq<Pair>)
    ensures AllValid(ps)
    decreases |s|
  {
    match ReadPair(s)
    case None => []
    case Some((p, rest)) => [p] + ParseAll(rest)
  }

  /** Reference reading of a text: all of its whitespace-separated tokens. */
  function Tokens(s: string): (r: seq<string>)
    decreases |s|
  {
    match ReadToken(s)
    case None => []
    case Some((t, rest)) => [t] + Tokens(rest)
  }

  /** Consecutive tokens taken two at a time; an odd last token is dropped. */
  function PairUp(ts: seq<string>): (r: seq<Pair>)
  {
    if |ts| < 2 then [] else [Pair(ts[0], ts[1])] + PairUp(ts[2..])
  }

  /** The file format written by `fout << pair << '\n'` for every pair. */
  function RenderFile(ps: seq<Pair>): (r: string)
  {
    if |ps| == 0 then "" else Serialize(ps[0]) + "\n" + RenderFile(ps[1..])
  }

  /** Reading pairs is reading tokens and grouping them two by two: keys and
      values alternate, and an odd trailing token is silently dropped. */
  lemma {:induction false} ParseAllIsPairUp(s: string)
    ensures ParseAll(s) == PairUp(Tokens(s))
    decreases |s|
  {
    match ReadToken(s)
    case None =>
    case Some((k, rest)) =>
      match ReadToken(rest)
      case None =>
        assert Tokens(rest) == [];
      case Some((v, rest')) =>
        ParseAllIsPairUp(rest');
        var ts := Tokens(s);
        assert ts == [k] + ([v] + Tokens(rest'));
        assert ts[2..] == Tokens(rest');
  }

  lemma {:induction false} PairUpLength(ts: seq<string>)
    ensures |PairUp(ts)| == |ts| / 2
    decreases |ts|
  {
    if |ts| >= 2 {
      PairUpLength(ts[2..]);
    }
  }

  /** The number of pairs read is half the number of tokens, rounded down. */
  lemma ParseAllCount(s: string)
    ensures |ParseAll(s)| == |Tokens(s)| / 2
  {
    ParseAllIsPairUp(s);
    PairUpLength(Tokens(s));
  }

  lemma {:induction false} TokenLengthOf(t: string, rest: string)
    requires NoSpace(t)
    requires |rest| > 0 ==> IsSpace(rest[0])
    ensures TokenLength(t + rest) == |t|
    decreases |t|
  {
    if |t| > 0 {
      assert (t + rest)[1..] == t[1..] + rest;
      TokenLengthOf(t[1..], rest);
    }
  }

  /** A token followed by whitespace (or the end) is read back as is. */
  lemma ReadTokenOf(t: string, rest: string)
    requires IsToken(t)
    requires |rest| > 0 ==> IsSpace(rest[0])
    ensures ReadToken(t + rest) == Some((t, rest))
  {
    var s := t + rest;
    assert SkipSpace(s) == s;
    TokenLengthOf(t, rest);
    assert s[..|t|] == t && s[|t|..] == rest;
  }

  /** Leading whitespace does not change what is read. */
  lemma ReadTokenSkipsSpace(c: char, s: string)
    requires IsSpace(c)
    ensures ReadToken([c] + s) == ReadToken(s)
  {
    assert ([c] + s)[1..] == s;
  }

  lemma ParseAllSkipsSpace(c: char, s: string)
    requires IsSpace(c)
    ensures ParseAll([c] + s) == ParseAll(s)
  {
    ReadTokenSkipsSpace(c, s);
  }

  /** One serialised line is read back as the pair it came from, leaving the
      line terminator unread. */
  lemma ReadPairOfLine(p: Pair, more: string)
    requires ValidPair(p)
    ensures ReadPair(Serialize(p) + "\n" + more) == Some((p, "\n" + more))
  {
    var tail := "\n" + more;
    assert Serialize(p) + "\n" + more == p.key + ([' '] + (p.value + tail));
    ReadTokenOf(p.key, [' '] + (p.value + tail));
    ReadTokenSkipsSpace(' ', p.value + tail);
    ReadTokenOf(p.value, tail);
  }

  /** The single-line round trip: `key + " " + value` followed by a newline
      parses to exactly that pair. */
  lemma LineRoundTrip(p: Pair)
    requires ValidPair(p)
    ensures ParseAll(Serialize(p) + "\n") == [p]
  {
    ReadPairOfLine(p, "");
    assert Serialize(p) + "\n" == Serialize(p) + "\n" + "";
    ParseAllSkipsSpace('\n', "");
  }

  /** A file written one pair per line reads back as the same sequence,
      provided no key or value is empty or contains whitespace. */
  lemma {:induction false} FileRoundTrip(ps: seq<Pair>)
    requires AllValid(ps)
    ensures ParseAll(RenderFile(ps)) == ps
    decreases |ps|
  {
    if |ps| > 0 {
      var more := RenderFile(ps[1..]);
      ReadPairOfLine(ps[0], more);
      ParseAllSkipsSpace('\n', more);
      FileRoundTrip(ps[1..]);
      assert ps == [ps[0]] + ps[1..];
    }
  }
}
