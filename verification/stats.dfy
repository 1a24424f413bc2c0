/** scripts/qcmdpc_stats.py: reading a results file of the simulator (the
    parameter line and the histogram line src/qcmdpc_decoder.c prints) and
    the cumulative failure counts per iteration.

    Strings are sequences of characters. The Python built-ins used on them
    (str.split, str.rstrip, str.lower, int) are written out for the ASCII
    characters; float() is an oracle. The confidence intervals and the
    density estimates are floating point and left out. */
module Stats {

  datatype Option<T> = None | Some(value: T)

  // ---------------------------------------------------------------------------
  // Python string built-ins
  // ---------------------------------------------------------------------------

  /** The ASCII characters str.isspace() accepts. */
  predicate IsSpace(c: char)
  {
    c == ' ' || c == '\t' || c == '\n' || c == '\r' || c == '\U{0B}' || c == '\U{0C}'
    || ('\U{1C}' <= c <= '\U{1F}')
  }

  ghost predicate NoSpace(t: string)
  {
    forall i :: 0 <= i < |t| ==> !IsSpace(t[i])
  }

  /** The length of the run of non-space characters s starts with. */
  function TokenLen(s: string): (n: nat)
    ensures n <= |s|
    ensures forall i :: 0 <= i < n ==> !IsSpace(s[i])
    ensures n < |s| ==> IsSpace(s[n])
  {
    if |s| == 0 || IsSpace(s[0]) then 0 else 1 + TokenLen(s[1..])
  }

  /** str.split() with no separator: the maximal runs of non-space
      characters, in order. */
  function Words(s: string): (ws: seq<string>)
    ensures forall k :: 0 <= k < |ws| ==> |ws[k]| > 0 && NoSpace(ws[k])
    decreases |s|
  {
    if |s| == 0 then []
    else if IsSpace(s[0]) then Words(s[1..])
    else
      var n := TokenLen(s);
      [s[..n]] + Words(s[n..])
  }

  /** Tokens, each preceded by one space. */
  function Spaced(ts: seq<string>): string
  {
    if |ts| == 0 then [] else " " + ts[0] + Spaced(ts[1..])
  }

  /** A token followed by nothing or by a space is one word. */
  lemma WordsCons(t: string, rest: string)
    requires |t| > 0 && NoSpace(t) && (|rest| == 0 || IsSpace(rest[0]))
    ensures Words(t + rest) == [t] + Words(rest)
  {
    var s := t + rest;
    assert TokenLen(s) == |t|;
    assert s[..|t|] == t && s[|t|..] == rest;
  }

  /** Splitting tokens joined by single spaces gives the tokens back. */
  lemma {:induction false} WordsSpaced(ts: seq<string>)
    requires forall k :: 0 <= k < |ts| ==> |ts[k]| > 0 && NoSpace(ts[k])
    ensures Words(Spaced(ts)) == ts
  {
    if |ts| > 0 {
      var rest := Spaced(ts[1..]);
      var s := " " + ts[0] + rest;
      assert s[1..] == ts[0] + rest;
      WordsSpaced(ts[1..]);
      assert |rest| == 0 || rest[0] == ' ';
      WordsCons(ts[0], rest);
    }
  }

  /** str.rstrip(): the longest prefix not ending in a space. */
  function Rstrip(s: string): (r: string)
    ensures r <= s
    ensures |r| == 0 || !IsSpace(r[|r| - 1])
    ensures forall i :: |r| <= i < |s| ==> IsSpace(s[i])
  {
    if |s| == 0 || !IsSpace(s[|s| - 1]) then s else Rstrip(s[..|s| - 1])
  }

  /** The first occurrence of c. */
  function IndexOf(s: string, c: char): (i: nat)
    requires c in s
    ensures i < |s| && s[i] == c && c !in s[..i]
  {
    if s[0] == c then 0
    else
      assert c in s[1..] by {
        var j :| 0 <= j < |s| && s[j] == c;
        assert s[1..][j - 1] == c;
      }
      var i := 1 + IndexOf(s[1..], c);
      assert s[..i] == [s[0]] + s[1..][..i - 1];
      i
  }

  /** str.split(c): the pieces between the occurrences of c. */
  function SplitOn(s: string, c: char): (parts: seq<string>)
    ensures |parts| >= 1
    ensures forall k :: 0 <= k < |parts| ==> c !in parts[k]
    decreases |s|
  {
    if c !in s then [s]
    else
      var i := IndexOf(s, c);
      [s[..i]] + SplitOn(s[i + 1..], c)
  }

  /** c.join(parts). */
  function JoinOn(parts: seq<string>, c: char): string
    requires |parts| >= 1
  {
    if |parts| == 1 then parts[0] else parts[0] + [c] + JoinOn(parts[1..], c)
  }

  /** Joining the pieces gives the string back. */
  lemma {:induction false} SplitJoin(s: string, c: char)
    ensures JoinOn(SplitOn(s, c), c) == s
    decreases |s|
  {
    if c in s {
      var i := IndexOf(s, c);
      var rest := SplitOn(s[i + 1..], c);
      assert SplitOn(s, c) == [s[..i]] + rest;
      SplitJoin(s[i + 1..], c);
      JoinCons(s[..i], rest, c);
      assert s == s[..i] + [c] + s[i + 1..];
    }
  }

  lemma JoinCons(head: string, rest: seq<string>, c: char)
    requires |rest| >= 1
    ensures JoinOn([head] + rest, c) == head + [c] + JoinOn(rest, c)
  {
    assert ([head] + rest)[1..] == rest;
  }

  /** Two pieces around the only c. */
  lemma SplitTwo(a: string, b: string, c: char)
    requires c !in a && c !in b
    ensures SplitOn(a + [c] + b, c) == [a, b]
  {
    var s := a + [c] + b;
    assert s[|a|] == c;
    var i := IndexOf(s, c);
    assert i == |a|;
    assert s[..i] == a && s[i + 1..] == b;
  }

  /** str.lower() on ASCII letters. */
  function Lower(s: string): (r: string)
    ensures |r| == |s|
    ensures forall i :: 0 <= i < |s| ==> (('A' <= s[i] <= 'Z') ==> r[i] as int == s[i] as int + 32)
    ensures forall i :: 0 <= i < |s| ==> (!('A' <= s[i] <= 'Z') ==> r[i] == s[i])
  {
    seq(|s|, i requires 0 <= i < |s| => if 'A' <= s[i] <= 'Z' then (s[i] as int + 32) as char else s[i])
  }

  // ---------------------------------------------------------------------------
  // Decimal integers: printf("%d") and Python int()
  // ---------------------------------------------------------------------------

  predicate IsDigit(c: char)
  {
    '0' <= c <= '9'
  }

  predicate AllDigits(s: string)
  {
    forall i :: 0 <= i < |s| ==> IsDigit(s[i])
  }

  function DigitValue(c: char): nat
    requires IsDigit(c)
  {
    c as int - '0' as int
  }

  function Digit(d: nat): (c: char)
    requires d < 10
    ensures IsDigit(c) && DigitValue(c) == d
  {
    ('0' as int + d) as char
  }

  /** The value of a string of decimal digits, most significant first. */
  function DigitsValue(s: string): nat
    requires AllDigits(s)
  {
    if |s| == 0 then 0 else DigitsValue(s[..|s| - 1]) * 10 + DigitValue(s[|s| - 1])
  }

  /** printf("%d") of a non-negative number: its decimal digits, no leading
      zero. */
  function FormatNat(n: nat): (s: string)
    ensures |s| > 0 && AllDigits(s) && NoSpace(s)
    ensures |s| > 1 ==> s[0] != '0'
  {
    if n < 10 then [Digit(n)] else FormatNat(n / 10) + [Digit(n % 10)]
  }

  /** int() on a token without spaces: an optional sign, then one or more
      ASCII digits; anything else raises ValueError (None). */
  function ParseInt(s: string): (r: Option<int>)
  {
    if |s| > 1 && (s[0] == '-' || s[0] == '+') && AllDigits(s[1..]) then
      var v: int := DigitsValue(s[1..]);
      Some(if s[0] == '-' then -v else v)
    else if |s| > 0 && AllDigits(s) then Some(DigitsValue(s))
    else None
  }

  /** Reading back what printf wrote. */
  lemma {:induction false} ParseFormat(n: nat)
    ensures DigitsValue(FormatNat(n)) == n
    ensures ParseInt(FormatNat(n)) == Some(n)
  {
    var s := FormatNat(n);
    if n >= 10 {
      ParseFormat(n / 10);
      assert s[..|s| - 1] == FormatNat(n / 10);
    }
  }

  // ---------------------------------------------------------------------------
  // dict() of a list of pairs
  // ---------------------------------------------------------------------------

  /** dict(pairs): later pairs override earlier ones with the same key. Every
      key present comes from some pair, and each key maps to the value of its
      last pair. */
  function Dict<K, V>(ps: seq<(K, V)>): (d: map<K, V>)
    ensures forall k :: k in d ==> exists j :: 0 <= j < |ps| && ps[j].0 == k
    ensures forall j :: 0 <= j < |ps| ==>
      ((forall j' :: j < j' < |ps| ==> ps[j'].0 != ps[j].0) ==> ps[j].0 in d && d[ps[j].0] == ps[j].1)
  {
    if |ps| == 0 then map[]
    else
      var init, last := ps[..|ps| - 1], ps[|ps| - 1];
      var d := Dict(init);
      assert ps == init + [last];
      DictExtend(init, last, d);
      d[last.0 := last.1]
  }

  /** One more pair: its key is bound to its value, and it overrides every
      earlier pair with that key. */
  lemma DictExtend<K, V>(init: seq<(K, V)>, last: (K, V), d: map<K, V>)
    requires forall k :: k in d ==> exists j :: 0 <= j < |init| && init[j].0 == k
    requires forall j :: 0 <= j < |init| ==>
      ((forall j' :: j < j' < |init| ==> init[j'].0 != init[j].0) ==> init[j].0 in d && d[init[j].0] == init[j].1)
    ensures var ps, d' := init + [last], d[last.0 := last.1];
      (forall k :: k in d' ==> exists j :: 0 <= j < |ps| && ps[j].0 == k)
      && forall j :: 0 <= j < |ps| ==>
        ((forall j' :: j < j' < |ps| ==> ps[j'].0 != ps[j].0) ==> ps[j].0 in d' && d'[ps[j].0] == ps[j].1)
  {
    var ps, d' := init + [last], d[last.0 := last.1];
    forall k | k in d'
      ensures exists j :: 0 <= j < |ps| && ps[j].0 == k
    {
      if k == last.0 {
        assert ps[|init|].0 == k;
      } else {
        var j :| 0 <= j < |init| && init[j].0 == k;
        assert ps[j].0 == k;
      }
    }
    forall j | 0 <= j < |ps| && (forall j' :: j < j' < |ps| ==> ps[j'].0 != ps[j].0)
      ensures ps[j].0 in d' && d'[ps[j].0] == ps[j].1
    {
      if j < |init| {
        assert ps[|init|].0 != ps[j].0;
        assert forall j' :: j < j' < |init| ==> init[j'].0 != init[j].0 by {
          forall j' | j < j' < |init|
            ensures init[j'].0 != init[j].0
          {
            assert ps[j'] == init[j'];
          }
        }
      }
    }
  }

  // ---------------------------------------------------------------------------
  // parse_param
  // ---------------------------------------------------------------------------

  /** A value of int_float_str: an int, the text of a float, or the string. */
  datatype Value = IntV(i: int) | FloatV(text: string) | StrV(s: string)

  /** int_float_str, lines 84-94: int() if it parses, else float(), else the
      string itself. isFloat is the oracle for Python's float syntax. */
  function IntFloatStr(x: string, isFloat: string -> bool): (v: Value)
    ensures ParseInt(x).Some? <==> v.IntV?
    ensures v.IntV? ==> ParseInt(x) == Some(v.i)
    ensures v.StrV? ==> v.s == x && !isFloat(x)
  {
    match ParseInt(x)
    case Some(n) => IntV(n)
    case None => if isFloat(x) then FloatV(x) else StrV(x)
  }

  /** x[0][2:]: the name without its "-D". */
  function DropFlag(x: string): string
  {
    if |x| <= 2 then [] else x[2..]
  }

  /** The pair of one token "-DNAME=value", line 98; a token without '='
      raises IndexError (None). */
  function ParamPair(tok: string, isFloat: string -> bool): (r: Option<(string, Value)>)
  {
    var x := SplitOn(tok, '=');
    if |x| < 2 then None else Some((Lower(DropFlag(x[0])), IntFloatStr(x[1], isFloat)))
  }

  function ParamPairs(toks: seq<string>, isFloat: string -> bool): (r: Option<seq<(string, Value)>>)
    ensures r.Some? ==> |r.value| == |toks|
    ensures r.Some? ==> forall k :: 0 <= k < |toks| ==> ParamPair(toks[k], isFloat) == Some(r.value[k])
    ensures r.None? ==> exists k :: 0 <= k < |toks| && ParamPair(toks[k], isFloat).None?
  {
    if |toks| == 0 then Some([])
    else
      var first, rest := ParamPair(toks[0], isFloat), ParamPairs(toks[1..], isFloat);
      if first.None? then None
      else if rest.None? then
        var k :| 0 <= k < |toks[1..]| && ParamPair(toks[1..][k], isFloat).None?;
        assert toks[1..][k] == toks[k + 1];
        None
      else
        var r := [first.value] + rest.value;
        assert forall k :: 1 <= k < |toks| ==> toks[k] == toks[1..][k - 1] && r[k] == rest.value[k - 1];
        Some(r)
  }

  /** parse_param, lines 83-99: the parameters of the line, by lower-cased
      name; None when a token has no '='. */
  function ParseParam(s: string, isFloat: string -> bool): (r: Option<map<string, Value>>)
  {
    match ParamPairs(Words(s), isFloat)
    case None => None
    case Some(ps) => Some(Dict(ps))
  }

  /** A value print_parameters formats: an integer by %d, or the text that
      %lg or %s writes, which is an oracle here. */
  datatype Arg = Dec(n: nat) | Text(s: string)

  function ArgText(a: Arg): string
  {
    match a
    case Dec(n) => FormatNat(n)
    case Text(s) => s
  }

  /** A value that stays inside its token: no space and no '='. */
  ghost predicate Printable(a: Arg)
  {
    a.Text? ==> NoSpace(a.s) && '=' !in a.s
  }

  /** The token -DNAME=value of src/qcmdpc_decoder.c:59-89. */
  function ParamToken(name: string, a: Arg): string
  {
    "-D" + name + "=" + ArgText(a)
  }

  /** What parse_param binds a parameter to: its name lower-cased and the
      int_float_str reading of its printed value. */
  function Bound(name: string, a: Arg, isFloat: string -> bool): (string, Value)
  {
    (Lower(name), IntFloatStr(ArgText(a), isFloat))
  }

  /** A token -DNAME=value is one word, starting with '-' and not ending in a
      space, and reads back as the name, lower-cased, bound to the reading of
      the value: n itself for a %d. */
  lemma ParamTokenPair(name: string, a: Arg, isFloat: string -> bool)
    requires NoSpace(name) && '=' !in name && Printable(a)
    ensures ParamPair(ParamToken(name, a), isFloat) == Some(Bound(name, a, isFloat))
    ensures a.Dec? ==> Bound(name, a, isFloat).1 == IntV(a.n)
    ensures |ParamToken(name, a)| > 0 && NoSpace(ParamToken(name, a)) && ParamToken(name, a)[0] == '-'
    ensures !IsSpace(ParamToken(name, a)[|ParamToken(name, a)| - 1])
  {
    var value := ArgText(a);
    var tok := ParamToken(name, a);
    if a.Dec? {
      DigitsAvoid(value, '=');
      ParseFormat(a.n);
    }
    assert tok == ("-D" + name) + ['='] + value;
    SplitTwo("-D" + name, value, '=');
    assert DropFlag("-D" + name) == name;
    assert |value| == 0 || tok[|tok| - 1] == value[|value| - 1];
    assert NoSpace(tok);
  }

  /** A single "-DNAME=value" reads back as name (lower-cased) bound to the
      reading of the value. */
  lemma ParamRoundTrip(name: string, a: Arg, isFloat: string -> bool)
    requires NoSpace(name) && '=' !in name && Printable(a)
    ensures ParseParam(ParamToken(name, a), isFloat) == Some(map[Lower(name) := IntFloatStr(ArgText(a), isFloat)])
    ensures a.Dec? ==> ParseParam(ParamToken(name, a), isFloat) == Some(map[Lower(name) := IntV(a.n)])
  {
    var tok := ParamToken(name, a);
    ParamTokenPair(name, a, isFloat);
    WordsCons(tok, []);
    assert tok + [] == tok;
    assert Words(tok) == [tok];
  }

  // ---------------------------------------------------------------------------
  // The histogram line
  // ---------------------------------------------------------------------------

  /** The " it:count" entries of src/qcmdpc_decoder.c:129-132 from iteration
      `from` on: the iterations with a non-zero count, increasing. */
  function Printed(counts: seq<nat>, from: nat): (es: seq<(nat, nat)>)
    ensures forall j :: 0 <= j < |es| ==> from <= es[j].0 < |counts| && es[j].1 == counts[es[j].0] != 0
    ensures forall j, j' :: 0 <= j < j' < |es| ==> es[j].0 < es[j'].0
    decreases |counts| - from
  {
    if from >= |counts| then []
    else
      var rest := Printed(counts, from + 1);
      if counts[from] != 0 then [(from, counts[from])] + rest else rest
  }

  /** Every iteration from `from` on with a non-zero count is printed. */
  lemma {:induction false} PrintedComplete(counts: seq<nat>, from: nat, it: nat)
    requires from <= it < |counts| && counts[it] != 0
    ensures exists j :: 0 <= j < |Printed(counts, from)| && Printed(counts, from)[j].0 == it
    decreases |counts| - from
  {
    var es := Printed(counts, from);
    if it == from {
      assert es[0].0 == it;
    } else {
      PrintedComplete(counts, from + 1, it);
      var rest := Printed(counts, from + 1);
      var j :| 0 <= j < |rest| && rest[j].0 == it;
      if counts[from] != 0 {
        assert es[j + 1].0 == it;
      } else {
        assert es[j].0 == it;
      }
    }
  }

  function Entry(it: nat, count: nat): string
  {
    FormatNat(it) + ":" + FormatNat(count)
  }

  /** The tokens after the test count: the entries, then " >max_iter:fails"
      when some test failed (lines 133-134). */
  function Tokens(counts: seq<nat>, fails: nat): seq<string>
    requires |counts| >= 1
  {
    var es := Printed(counts, 0);
    seq(|es|, j requires 0 <= j < |es| => Entry(es[j].0, es[j].1))
    + (if fails != 0 then [">" + Entry(|counts| - 1, fails)] else [])
  }

  /** The line written at lines 128-135 (its "\n" is stripped when read):
      the number of tests, then the tokens. counts has max_iter + 1 slots and
      fails is n_test_total - n_success_total. */
  function ResultLine(total: nat, counts: seq<nat>, fails: nat): string
    requires |counts| >= 1
  {
    FormatNat(total) + Spaced(Tokens(counts, fails))
  }

  /** What get_data makes of a line: it raises, finds no results, or reads a
      histogram. */
  datatype Parsed = Raises | NoResults | Histogram(h: map<int, int>)

  /** Lines 122-123: a last key starting with '>' becomes "-1"; an empty last
      key raises IndexError. */
  function Rekey(results: seq<seq<string>>): Option<seq<seq<string>>>
    requires forall k :: 0 <= k < |results| ==> |results[k]| >= 1
  {
    if |results| == 0 then Some(results)
    else
      var last := results[|results| - 1];
      if |last[0]| == 0 then None
      else if last[0][0] == '>' then Some(results[..|results| - 1] + [["-1"] + last[1..]])
      else Some(results)
  }

  /** The pair (int(e[0]), int(e[1])) of line 124. */
  function PairOf(e: seq<string>): Option<(int, int)>
  {
    if |e| < 2 then None
    else match (ParseInt(e[0]), ParseInt(e[1]))
      case (Some(a), Some(b)) => Some((a, b))
      case _ => None
  }

  function PairsOf(rs: seq<seq<string>>): (r: Option<seq<(int, int)>>)
    ensures r.Some? ==> |r.value| == |rs| && forall k :: 0 <= k < |rs| ==> PairOf(rs[k]) == Some(r.value[k])
  {
    if |rs| == 0 then Some([])
    else match (PairOf(rs[0]), PairsOf(rs[1..]))
      case (Some(p), Some(ps)) => Some([p] + ps)
      case _ => None
  }

  /** When every piece reads as a pair, PairsOf succeeds with those pairs. */
  lemma {:induction false} PairsOfAll(rs: seq<seq<string>>, ps: seq<(int, int)>)
    requires |ps| == |rs| && forall k :: 0 <= k < |rs| ==> PairOf(rs[k]) == Some(ps[k])
    ensures PairsOf(rs) == Some(ps)
  {
    if |rs| > 0 {
      PairsOfAll(rs[1..], ps[1..]);
      assert ps == [ps[0]] + ps[1..];
    }
  }

  /** The pieces of the tokens after the first, line 121. */
  function Pieces(line: string): (rs: seq<seq<string>>)
    ensures forall k :: 0 <= k < |rs| ==> |rs[k]| >= 1
  {
    var toks := Words(line);
    if |toks| == 0 then []
    else seq(|toks| - 1, k requires 0 <= k < |toks| - 1 => SplitOn(toks[k + 1], ':'))
  }

  /** Lines 119-127 on the last result line. */
  function ParseResults(line: string): Parsed
  {
    match Rekey(Pieces(line))
    case None => Raises
    case Some(rs) =>
      match PairsOf(rs)
      case None => Raises
      case Some(ps) => if |ps| == 0 then NoResults else Histogram(Dict(ps))
  }

  /** The histogram the line records: the count of every iteration with a
      non-zero count, and the failures under key -1. */
  function Recorded(counts: seq<nat>, fails: nat): (h: map<int, int>)
  {
    var its := map it | 0 <= it < |counts| && counts[it] != 0 :: counts[it];
    if fails != 0 then its[-1 := fails] else its
  }

  /** The pairs read from the line: the printed entries, then (-1, fails)
      when some test failed. */
  function PairsRead(es: seq<(nat, nat)>, fails: nat): (ps: seq<(int, int)>)
  {
    seq(|es|, j requires 0 <= j < |es| => (es[j].0 as int, es[j].1 as int))
    + (if fails != 0 then [(-1, fails)] else [])
  }

  /** The pieces the entries split into, with the failure key re-keyed. */
  function Keyed(es: seq<(nat, nat)>, fails: nat): (keyed: seq<seq<string>>)
  {
    seq(|es|, j requires 0 <= j < |es| => [FormatNat(es[j].0), FormatNat(es[j].1)])
    + (if fails != 0 then [["-1", FormatNat(fails)]] else [])
  }

  /** Reading the line back recovers the histogram printed. */
  lemma ResultLineRoundTrip(total: nat, counts: seq<nat>, fails: nat)
    requires |counts| >= 1
    ensures ParseResults(ResultLine(total, counts, fails))
         == if Recorded(counts, fails) == map[] then NoResults else Histogram(Recorded(counts, fails))
  {
    var es := Printed(counts, 0);
    var ps := PairsRead(es, fails);
    LinePairs(total, counts, fails);
    DictRecorded(counts, fails, es, ps);
  }

  /** The line's pieces, re-keyed, read as the pairs printed. */
  lemma LinePairs(total: nat, counts: seq<nat>, fails: nat)
    requires |counts| >= 1
    ensures var rs := Pieces(ResultLine(total, counts, fails));
      Rekey(rs) == Some(Keyed(Printed(counts, 0), fails))
      && PairsOf(Keyed(Printed(counts, 0), fails)) == Some(PairsRead(Printed(counts, 0), fails))
  {
    var es := Printed(counts, 0);
    var toks := Tokens(counts, fails);
    var rs := Pieces(ResultLine(total, counts, fails));
    LineWords(total, counts, fails);
    var plain := seq(|es|, j requires 0 <= j < |es| => [FormatNat(es[j].0), FormatNat(es[j].1)]);
    EntryPieces(counts, fails, rs, plain);
    var keyed := Keyed(es, fails);
    assert keyed == plain + (if fails != 0 then [["-1", FormatNat(fails)]] else []);
    forall k | 0 <= k < |plain|
      ensures |plain[k]| == 2 && |plain[k][0]| > 0 && IsDigit(plain[k][0][0])
    {
    }
    RekeyPieces(counts, fails, rs, plain, keyed);
    KeyedPairs(es, fails);
  }

  /** The words of the line are the test count and the tokens. */
  lemma LineWords(total: nat, counts: seq<nat>, fails: nat)
    requires |counts| >= 1
    ensures var toks := Tokens(counts, fails); var rs := Pieces(ResultLine(total, counts, fails));
      |rs| == |toks| && forall k :: 0 <= k < |rs| ==> rs[k] == SplitOn(toks[k], ':')
  {
    var toks := Tokens(counts, fails);
    TokensAreWords(counts, fails);
    WordsSpaced(toks);
    var sp := Spaced(toks);
    assert |sp| == 0 || sp[0] == ' ';
    WordsCons(FormatNat(total), sp);
  }

  /** Each re-keyed piece reads as its pair. */
  lemma KeyedPairs(es: seq<(nat, nat)>, fails: nat)
    ensures PairsOf(Keyed(es, fails)) == Some(PairsRead(es, fails))
  {
    var keyed := Keyed(es, fails);
    var ps := PairsRead(es, fails);
    forall k | 0 <= k < |keyed|
      ensures PairOf(keyed[k]) == Some(ps[k])
    {
      if k < |es| {
        ParseFormat(es[k].0);
        ParseFormat(es[k].1);
      } else {
        ParseFormat(fails);
        assert ParseInt("-1") == Some(-1) by {
          assert "-1"[1..] == "1";
          assert DigitsValue("1") == 1 by {
            assert "1"[..0] == [];
          }
        }
      }
    }
    PairsOfAll(keyed, ps);
  }

  /** Every token is a non-empty run without spaces. */
  lemma TokensAreWords(counts: seq<nat>, fails: nat)
    requires |counts| >= 1
    ensures forall k :: 0 <= k < |Tokens(counts, fails)| ==> |Tokens(counts, fails)[k]| > 0 && NoSpace(Tokens(counts, fails)[k])
    ensures forall k :: 0 <= k < |Tokens(counts, fails)| ==> ':' !in FormatNat(k)
  {
    forall k | 0 <= k < |Tokens(counts, fails)|
      ensures ':' !in FormatNat(k)
    {
      DigitsAvoid(FormatNat(k), ':');
    }
  }

  lemma DigitsAvoid(s: string, c: char)
    requires AllDigits(s) && !IsDigit(c)
    ensures c !in s
  {
  }

  /** Each token splits at its ':' into two decimal numbers. */
  lemma EntryPieces(counts: seq<nat>, fails: nat, rs: seq<seq<string>>, plain: seq<seq<string>>)
    requires |counts| >= 1
    requires var toks := Tokens(counts, fails);
      |rs| == |toks| && forall k :: 0 <= k < |rs| ==> rs[k] == SplitOn(toks[k], ':')
    requires var es := Printed(counts, 0);
      plain == seq(|es|, j requires 0 <= j < |es| => [FormatNat(es[j].0), FormatNat(es[j].1)])
    ensures rs[..|plain|] == plain
    ensures fails != 0 ==> |rs| == |plain| + 1 && rs[|plain|] == [">" + FormatNat(|counts| - 1), FormatNat(fails)]
    ensures fails == 0 ==> |rs| == |plain|
  {
    var es := Printed(counts, 0);
    var toks := Tokens(counts, fails);
    forall j | 0 <= j < |es|
      ensures rs[j] == plain[j]
    {
      DigitsAvoid(FormatNat(es[j].0), ':');
      DigitsAvoid(FormatNat(es[j].1), ':');
      assert toks[j] == FormatNat(es[j].0) + [':'] + FormatNat(es[j].1);
      SplitTwo(FormatNat(es[j].0), FormatNat(es[j].1), ':');
    }
    if fails != 0 {
      var a := ">" + FormatNat(|counts| - 1);
      DigitsAvoid(FormatNat(|counts| - 1), ':');
      DigitsAvoid(FormatNat(fails), ':');
      assert ':' !in a by {
        assert a == ['>'] + FormatNat(|counts| - 1);
      }
      assert toks[|es|] == a + [':'] + FormatNat(fails);
      SplitTwo(a, FormatNat(fails), ':');
    }
  }

  /** The re-keying of lines 122-123 touches only the failure entry. */
  lemma RekeyPieces(counts: seq<nat>, fails: nat, rs: seq<seq<string>>, plain: seq<seq<string>>, keyed: seq<seq<string>>)
    requires forall k :: 0 <= k < |rs| ==> |rs[k]| >= 1
    requires forall k :: 0 <= k < |plain| ==> |plain[k]| == 2 && |plain[k][0]| > 0 && IsDigit(plain[k][0][0])
    requires |plain| <= |rs| && rs[..|plain|] == plain && |counts| >= 1
    requires fails != 0 ==> |rs| == |plain| + 1 && rs[|plain|] == [">" + FormatNat(|counts| - 1), FormatNat(fails)]
    requires fails == 0 ==> |rs| == |plain|
    requires keyed == plain + (if fails != 0 then [["-1", FormatNat(fails)]] else [])
    ensures Rekey(rs) == Some(keyed)
  {
    if fails == 0 {
      assert rs == plain && keyed == plain;
      if |rs| > 0 {
        assert IsDigit(rs[|rs| - 1][0][0]);
      }
    } else {
      var last := rs[|rs| - 1];
      assert last == [">" + FormatNat(|counts| - 1), FormatNat(fails)];
      assert last[0][0] == '>';
      assert ["-1"] + last[1..] == ["-1", FormatNat(fails)];
      assert rs[..|rs| - 1] == plain;
    }
  }

  /** The dict of the pairs read is the histogram recorded. */
  lemma DictRecorded(counts: seq<nat>, fails: nat, es: seq<(nat, nat)>, ps: seq<(int, int)>)
    requires es == Printed(counts, 0) && ps == PairsRead(es, fails)
    ensures |ps| == 0 <==> Recorded(counts, fails) == map[]
    ensures |ps| > 0 ==> Dict(ps) == Recorded(counts, fails)
  {
    var h := Recorded(counts, fails);
    if |ps| == 0 {
      RecordedInPairs(counts, fails, es, ps);
      assert h.Keys == {};
    } else {
      PairsInRecorded(counts, fails, es, ps);
      assert ps[0].0 in h;
      RecordedInPairs(counts, fails, es, ps);
      DictIsMap(ps, h);
    }
  }

  /** The dict of pairs with distinct keys is the map holding exactly them. */
  lemma DictIsMap<K, V>(ps: seq<(K, V)>, h: map<K, V>)
    requires forall j :: 0 <= j < |ps| ==> ps[j].0 in h && h[ps[j].0] == ps[j].1
    requires forall j, j' :: 0 <= j < j' < |ps| ==> ps[j'].0 != ps[j].0
    requires forall k :: k in h ==> exists j :: 0 <= j < |ps| && ps[j].0 == k
    ensures Dict(ps) == h
  {
    var d := Dict(ps);
    forall k | k in h
      ensures k in d && d[k] == h[k]
    {
      var j :| 0 <= j < |ps| && ps[j].0 == k;
    }
    forall k | k in d
      ensures k in h
    {
      var j :| 0 <= j < |ps| && ps[j].0 == k;
    }
  }

  /** The keys and values of the histogram recorded. */
  lemma RecordedAt(counts: seq<nat>, fails: nat, k: int)
    ensures k in Recorded(counts, fails) <==> (k == -1 && fails != 0) || (0 <= k < |counts| && counts[k] != 0)
    ensures k in Recorded(counts, fails) ==> Recorded(counts, fails)[k] == if k == -1 then fails else counts[k]
  {
  }

  /** Every pair read is in the histogram, and no key is read twice. */
  lemma PairsInRecorded(counts: seq<nat>, fails: nat, es: seq<(nat, nat)>, ps: seq<(int, int)>)
    requires es == Printed(counts, 0) && ps == PairsRead(es, fails)
    ensures forall j :: 0 <= j < |ps| ==> ps[j].0 in Recorded(counts, fails) && Recorded(counts, fails)[ps[j].0] == ps[j].1
    ensures forall j, j' :: 0 <= j < j' < |ps| ==> ps[j'].0 != ps[j].0
  {
    forall j | 0 <= j < |ps|
      ensures ps[j].0 in Recorded(counts, fails) && Recorded(counts, fails)[ps[j].0] == ps[j].1
    {
      RecordedAt(counts, fails, ps[j].0);
    }
  }

  /** Every key of the histogram is read. */
  lemma RecordedInPairs(counts: seq<nat>, fails: nat, es: seq<(nat, nat)>, ps: seq<(int, int)>)
    requires es == Printed(counts, 0) && ps == PairsRead(es, fails)
    ensures forall k :: k in Recorded(counts, fails) ==> exists j :: 0 <= j < |ps| && ps[j].0 == k
  {
    forall k | k in Recorded(counts, fails)
      ensures exists j :: 0 <= j < |ps| && ps[j].0 == k
    {
      RecordedAt(counts, fails, k);
      if k == -1 {
        assert ps[|ps| - 1].0 == -1;
      } else {
        PrintedComplete(counts, 0, k);
        var j :| 0 <= j < |es| && es[j].0 == k;
        assert ps[j].0 == k;
      }
    }
  }

  // ---------------------------------------------------------------------------
  // get_data: the lines kept
  // ---------------------------------------------------------------------------

  /** A line, once rstripped, that is not skipped: empty lines are. */
  predicate Kept(line: string)
  {
    |Rstrip(line)| > 0
  }

  predicate IsParamLine(line: string)
  {
    Kept(line) && Rstrip(line)[0] == '-'
  }

  predicate IsResultLine(line: string)
  {
    Kept(line) && Rstrip(line)[0] != '-'
  }

  /** The loop of lines 107-115: the index of the last line the predicate
      keeps (each later line overwrites s_param or s_results), or None when
      there is none and the string stays "". */
  function LastWhere(lines: seq<string>, p: string -> bool): (r: Option<nat>)
    ensures r.Some? ==> (r.value < |lines| && p(lines[r.value])
      && forall j :: r.value < j < |lines| ==> !p(lines[j]))
    ensures r.None? ==> forall j :: 0 <= j < |lines| ==> !p(lines[j])
  {
    if |lines| == 0 then None
    else if p(lines[|lines| - 1]) then Some(|lines| - 1)
    else LastWhere(lines[..|lines| - 1], p)
  }

  /** The result line get_data parses: the last kept line not starting with
      '-', rstripped; "" when there is none. */
  function ResultText(lines: seq<string>): string
  {
    match LastWhere(lines, IsResultLine)
    case None => []
    case Some(i) => Rstrip(lines[i])
  }

  /** LastWhere finds the last match and no other. */
  lemma {:induction false} LastWhereAt(lines: seq<string>, p: string -> bool, i: nat)
    requires i < |lines| && p(lines[i])
    requires forall j :: i < j < |lines| ==> !p(lines[j])
    ensures LastWhere(lines, p) == Some(i)
  {
    if i < |lines| - 1 {
      LastWhereAt(lines[..|lines| - 1], p, i);
    }
  }

  /** A file whose last result line is the one the simulator printed (with
      its newline) reads back as that histogram. */
  lemma FileRoundTrip(before: seq<string>, after: seq<string>, total: nat, counts: seq<nat>, fails: nat)
    requires |counts| >= 1
    requires forall j :: 0 <= j < |after| ==> !IsResultLine(after[j])
    ensures ParseResults(ResultText(before + [ResultLine(total, counts, fails) + "\n"] + after))
         == if Recorded(counts, fails) == map[] then NoResults else Histogram(Recorded(counts, fails))
  {
    var line := ResultLine(total, counts, fails);
    var lines := before + [line + "\n"] + after;
    var i := |before|;
    PrintedIsResultLine(total, counts, fails);
    assert lines[i] == line + "\n";
    forall j | i < j < |lines|
      ensures !IsResultLine(lines[j])
    {
      assert lines[j] == after[j - i - 1];
    }
    LastWhereAt(lines, IsResultLine, i);
    assert ResultText(lines) == line;
    ResultLineRoundTrip(total, counts, fails);
  }

  /** The printed line, newline and all, is the kind get_data keeps as the
      result line, and rstrip gives back the line. */
  lemma PrintedIsResultLine(total: nat, counts: seq<nat>, fails: nat)
    requires |counts| >= 1
    ensures Rstrip(ResultLine(total, counts, fails) + "\n") == ResultLine(total, counts, fails)
    ensures IsResultLine(ResultLine(total, counts, fails) + "\n")
    ensures IsDigit((ResultLine(total, counts, fails) + "\n")[0])
  {
    var line := ResultLine(total, counts, fails);
    StripNewline(total, counts, fails);
    assert line[0] == FormatNat(total)[0];
  }

  /** The printed line ends in a digit, so rstrip only drops the newline. */
  lemma StripNewline(total: nat, counts: seq<nat>, fails: nat)
    requires |counts| >= 1
    ensures Rstrip(ResultLine(total, counts, fails) + "\n") == ResultLine(total, counts, fails)
  {
    LastIsDigit(total, counts, fails);
    RstripNewline(ResultLine(total, counts, fails));
  }

  /** rstrip removes a newline after a last character that is not a space. */
  lemma RstripNewline(line: string)
    requires |line| > 0 && !IsSpace(line[|line| - 1])
    ensures Rstrip(line + "\n") == line
  {
    var s := line + "\n";
    assert s[..|s| - 1] == line;
  }

  /** The printed line ends in a digit: the test count, or the count of the
      last entry. */
  lemma LastIsDigit(total: nat, counts: seq<nat>, fails: nat)
    requires |counts| >= 1
    ensures |ResultLine(total, counts, fails)| > 0 && IsDigit(ResultLine(total, counts, fails)[|ResultLine(total, counts, fails)| - 1])
  {
    var toks := Tokens(counts, fails);
    var head := FormatNat(total);
    var line := head + Spaced(toks);
    if |toks| == 0 {
      assert line == head;
    } else {
      var t := toks[|toks| - 1];
      var es := Printed(counts, 0);
      if fails != 0 {
        assert t == ">" + Entry(|counts| - 1, fails);
        EntryEndsInDigit(|counts| - 1, fails);
      } else {
        assert t == Entry(es[|es| - 1].0, es[|es| - 1].1);
        EntryEndsInDigit(es[|es| - 1].0, es[|es| - 1].1);
      }
      SpacedLast(toks);
      assert line[|line| - 1] == Spaced(toks)[|Spaced(toks)| - 1];
    }
  }

  lemma EntryEndsInDigit(it: nat, count: nat)
    ensures |Entry(it, count)| > 0 && IsDigit(Entry(it, count)[|Entry(it, count)| - 1])
  {
    var c := FormatNat(count);
    assert Entry(it, count)[|Entry(it, count)| - 1] == c[|c| - 1];
  }

  /** A spaced list of tokens ends with the last character of its last
      token. */
  lemma {:induction false} SpacedLast(ts: seq<string>)
    requires |ts| > 0 && |ts[|ts| - 1]| > 0
    ensures |Spaced(ts)| > 0 && Spaced(ts)[|Spaced(ts)| - 1] == ts[|ts| - 1][|ts[|ts| - 1]| - 1]
  {
    var rest := Spaced(ts[1..]);
    assert Spaced(ts) == " " + ts[0] + rest;
    if |ts| > 1 {
      SpacedLast(ts[1..]);
    }
  }

  // ---------------------------------------------------------------------------
  // get_data: the parameter line
  // ---------------------------------------------------------------------------

  /** a <= b in Python's order on strings: by code point, a prefix first. */
  predicate StrLe(a: string, b: string)
  {
    |a| == 0 || (|b| > 0 && (a[0] < b[0] || (a[0] == b[0] && StrLe(a[1..], b[1..]))))
  }

  lemma {:induction false} StrLeTotal(a: string, b: string)
    ensures StrLe(a, b) || StrLe(b, a)
  {
    if |a| > 0 && |b| > 0 && a[0] == b[0] {
      StrLeTotal(a[1..], b[1..]);
    }
  }

  predicate SortedWords(ws: seq<string>)
  {
    forall i :: 0 < i < |ws| ==> StrLe(ws[i - 1], ws[i])
  }

  /** x inserted before the first word it does not follow. */
  function InsertWord(x: string, ws: seq<string>): (r: seq<string>)
    requires SortedWords(ws)
    ensures multiset(r) == multiset(ws) + multiset{x}
    ensures SortedWords(r)
    ensures |r| > 0 && (r[0] == x || (|ws| > 0 && r[0] == ws[0]))
  {
    if |ws| == 0 then [x]
    else if StrLe(x, ws[0]) then [x] + ws
    else
      StrLeTotal(x, ws[0]);
      assert ws == [ws[0]] + ws[1..];
      [ws[0]] + InsertWord(x, ws[1..])
  }

  /** sorted(), line 112: a sorted permutation of the words. */
  function SortWords(ws: seq<string>): (r: seq<string>)
    ensures multiset(r) == multiset(ws) && SortedWords(r)
  {
    if |ws| == 0 then []
    else
      assert ws == [ws[0]] + ws[1..];
      InsertWord(ws[0], SortWords(ws[1..]))
  }

  /** " ".join(ws). */
  function JoinSpaced(ws: seq<string>): string
  {
    if |ws| == 0 then [] else ws[0] + Spaced(ws[1..])
  }

  /** Splitting words joined by single spaces gives the words back. */
  lemma WordsJoin(ws: seq<string>)
    requires forall k :: 0 <= k < |ws| ==> |ws[k]| > 0 && NoSpace(ws[k])
    ensures Words(JoinSpaced(ws)) == ws
  {
    if |ws| > 0 {
      var tail := ws[1..];
      var rest := Spaced(tail);
      assert JoinSpaced(ws) == ws[0] + rest;
      assert forall k :: 0 <= k < |tail| ==> tail[k] == ws[k + 1];
      WordsSpaced(tail);
      assert |rest| == 0 || rest[0] == ' ';
      WordsCons(ws[0], rest);
      assert ws == [ws[0]] + tail;
    }
  }

  /** The parameter string get_data parses: the words of the last kept line
      starting with '-', sorted and joined by spaces; "" when there is none. */
  function ParamText(lines: seq<string>): string
  {
    match LastWhere(lines, IsParamLine)
    case None => []
    case Some(i) => JoinSpaced(SortWords(Words(Rstrip(lines[i]))))
  }

  /** What get_data returns: it raises, returns None, or returns the
      parameters with the histogram under 'iteration'. */
  datatype Data = Raised | NoData | Loaded(params: map<string, Value>, iteration: map<int, int>)

  /** get_data, lines 102-131, up to the call of get_density: the parameters
      are parsed first, then the results. */
  function GetData(lines: seq<string>, isFloat: string -> bool): Data
  {
    match ParseParam(ParamText(lines), isFloat)
    case None => Raised
    case Some(entry) =>
      match ParseResults(ResultText(lines))
      case Raises => Raised
      case NoResults => NoData
      case Histogram(h) => Loaded(entry, h)
  }

  /** The parameter line of src/qcmdpc_decoder.c:58-89: the -DNAME=value
      tokens joined by spaces, ending with -DALGO=name. */
  function ParamLine(ps: seq<(string, Arg)>): string
  {
    JoinSpaced(ParamTokens(ps))
  }

  function ParamTokens(ps: seq<(string, Arg)>): (toks: seq<string>)
    ensures |toks| == |ps|
  {
    seq(|ps|, i requires 0 <= i < |ps| => ParamToken(ps[i].0, ps[i].1))
  }

  /** Names without spaces or '=', pairwise distinct once lower-cased, and
      values that stay inside their tokens. */
  ghost predicate ValidNames(ps: seq<(string, Arg)>)
  {
    (forall i :: 0 <= i < |ps| ==> NoSpace(ps[i].0) && '=' !in ps[i].0 && Printable(ps[i].1))
    && forall i, j :: 0 <= i < |ps| && 0 <= j < |ps| && i != j ==> Lower(ps[i].0) != Lower(ps[j].0)
  }

  /** A file of the two lines the simulator prints reads back as the
      parameters and the recorded histogram, whatever order the sort puts
      the parameters in; with no iteration recorded get_data returns None.
      A %d parameter reads back as its integer, and a text such as the name
      after -DALGO= that is neither an int nor a float reads back as itself. */
  lemma GetDataRoundTrip(ps: seq<(string, Arg)>, total: nat, counts: seq<nat>, fails: nat, isFloat: string -> bool)
    requires |counts| >= 1 && ValidNames(ps)
    ensures Recorded(counts, fails) == map[] ==>
      GetData([ParamLine(ps) + "\n", ResultLine(total, counts, fails) + "\n"], isFloat) == NoData
    ensures Recorded(counts, fails) != map[] ==>
      var d := GetData([ParamLine(ps) + "\n", ResultLine(total, counts, fails) + "\n"], isFloat);
      d.Loaded? && d.iteration == Recorded(counts, fails)
      && d.params.Keys == (set i | 0 <= i < |ps| :: Lower(ps[i].0))
      && (forall i :: 0 <= i < |ps| ==> d.params[Lower(ps[i].0)] == IntFloatStr(ArgText(ps[i].1), isFloat))
      && (forall i :: 0 <= i < |ps| && ps[i].1.Dec? ==> d.params[Lower(ps[i].0)] == IntV(ps[i].1.n))
      && (forall i :: 0 <= i < |ps| && ps[i].1.Text? && ParseInt(ps[i].1.s).None? && !isFloat(ps[i].1.s) ==>
            d.params[Lower(ps[i].0)] == StrV(ps[i].1.s))
  {
    var lines := [ParamLine(ps) + "\n", ResultLine(total, counts, fails) + "\n"];
    PrintedIsResultLine(total, counts, fails);
    LastWhereAt(lines, IsResultLine, 1);
    assert ResultText(lines) == ResultLine(total, counts, fails);
    ResultLineRoundTrip(total, counts, fails);
    var params := ParamsRead(ps, lines, isFloat);
  }

  /** The parameters read back from the file: exactly the lower-cased
      names, each bound to the reading of its printed value. */
  lemma ParamsRead(ps: seq<(string, Arg)>, lines: seq<string>, isFloat: string -> bool) returns (params: map<string, Value>)
    requires ValidNames(ps) && |lines| == 2 && lines[0] == ParamLine(ps) + "\n"
    requires |lines[1]| > 0 && IsDigit(lines[1][0])
    ensures ParseParam(ParamText(lines), isFloat) == Some(params)
    ensures params.Keys == (set i | 0 <= i < |ps| :: Lower(ps[i].0))
    ensures forall i :: 0 <= i < |ps| ==> params[Lower(ps[i].0)] == IntFloatStr(ArgText(ps[i].1), isFloat)
    ensures forall i :: 0 <= i < |ps| && ps[i].1.Dec? ==> params[Lower(ps[i].0)] == IntV(ps[i].1.n)
  {
    var toks := ParamTokens(ps);
    assert !IsParamLine(lines[1]) by {
      assert |Rstrip(lines[1])| == 0 || Rstrip(lines[1])[0] == lines[1][0];
    }
    if |ps| == 0 {
      assert Rstrip(lines[0]) == [];
      assert LastWhere(lines, IsParamLine) == None;
      assert Words([]) == [];
      params := map[];
    } else {
      var ws := ParamWords(ps, lines);
      forall j | 0 <= j < |ws|
        ensures |ws[j]| > 0 && NoSpace(ws[j])
      {
        var i := TokenOf(ps, ws, j);
        ParamTokenPair(ps[i].0, ps[i].1, isFloat);
      }
      WordsJoin(ws);
      params := PairsOfWords(ps, ws, isFloat);
      assert ParamText(lines) == JoinSpaced(ws);
    }
    forall i | 0 <= i < |ps| && ps[i].1.Dec?
      ensures params[Lower(ps[i].0)] == IntV(ps[i].1.n)
    {
      ParamTokenPair(ps[i].0, ps[i].1, isFloat);
    }
  }

  /** The tokens of a non-empty parameter line, sorted: what ParamText
      joins. */
  lemma ParamWords(ps: seq<(string, Arg)>, lines: seq<string>) returns (ws: seq<string>)
    requires ValidNames(ps) && |ps| > 0 && |lines| == 2 && lines[0] == ParamLine(ps) + "\n"
    requires !IsParamLine(lines[1])
    ensures ParamText(lines) == JoinSpaced(ws) && ws == SortWords(ParamTokens(ps))
  {
    var toks := ParamTokens(ps);
    TokensAreParamWords(ps);
    ParamLineShape(ps);
    RstripNewline(ParamLine(ps));
    LastWhereAt(lines, IsParamLine, 0);
    WordsJoin(toks);
    ws := SortWords(toks);
  }

  /** Each token is one word, starting with '-' and not ending in a space. */
  lemma TokensAreParamWords(ps: seq<(string, Arg)>)
    requires ValidNames(ps)
    ensures forall k :: 0 <= k < |ps| ==>
      var t := ParamTokens(ps)[k];
      |t| > 0 && NoSpace(t) && t[0] == '-' && !IsSpace(t[|t| - 1])
  {
    forall k | 0 <= k < |ps|
      ensures var t := ParamTokens(ps)[k];
        |t| > 0 && NoSpace(t) && t[0] == '-' && !IsSpace(t[|t| - 1])
    {
      ParamTokenPair(ps[k].0, ps[k].1, id => false);
    }
  }

  /** A non-empty parameter line starts with '-' and does not end in a
      space. */
  lemma ParamLineShape(ps: seq<(string, Arg)>)
    requires ValidNames(ps) && |ps| > 0
    ensures var line := ParamLine(ps);
      |line| > 0 && line[0] == '-' && !IsSpace(line[|line| - 1])
  {
    var toks := ParamTokens(ps);
    TokensAreParamWords(ps);
    var line := ParamLine(ps);
    var t := toks[|toks| - 1];
    if |toks| > 1 {
      SpacedLast(toks[1..]);
    }
    assert line[|line| - 1] == t[|t| - 1];
  }

  /** The word at j of a permutation of the tokens is one of the tokens. */
  lemma TokenOf(ps: seq<(string, Arg)>, ws: seq<string>, j: nat) returns (i: nat)
    requires j < |ws| && multiset(ws) == multiset(ParamTokens(ps))
    ensures i < |ps| && ws[j] == ParamToken(ps[i].0, ps[i].1)
  {
    var toks := ParamTokens(ps);
    assert ws[j] in multiset(toks);
    var k :| 0 <= k < |toks| && toks[k] == ws[j];
    i := k;
  }

  /** The dict of the pairs of a permutation of the tokens binds each
      lower-cased name to the reading of its value and nothing else. */
  lemma PairsOfWords(ps: seq<(string, Arg)>, ws: seq<string>, isFloat: string -> bool) returns (params: map<string, Value>)
    requires ValidNames(ps) && multiset(ws) == multiset(ParamTokens(ps))
    requires Words(JoinSpaced(ws)) == ws
    ensures ParseParam(JoinSpaced(ws), isFloat) == Some(params)
    ensures params.Keys == (set i | 0 <= i < |ps| :: Lower(ps[i].0))
    ensures forall i :: 0 <= i < |ps| ==> params[Lower(ps[i].0)] == IntFloatStr(ArgText(ps[i].1), isFloat)
  {
    var pairs := WordPairs(ps, ws, isFloat);
    params := Dict(pairs);
    DictKeys(ps, pairs, isFloat);
    forall i | 0 <= i < |ps|
      ensures Lower(ps[i].0) in params && params[Lower(ps[i].0)] == IntFloatStr(ArgText(ps[i].1), isFloat)
    {
      NameRead(ps, ws, isFloat, pairs, i);
    }
  }

  /** Every word of a permutation of the tokens is a parameter pair. */
  lemma WordPairs(ps: seq<(string, Arg)>, ws: seq<string>, isFloat: string -> bool) returns (pairs: seq<(string, Value)>)
    requires ValidNames(ps) && multiset(ws) == multiset(ParamTokens(ps))
    ensures ParamPairs(ws, isFloat) == Some(pairs)
    ensures |pairs| == |ws| && forall j :: 0 <= j < |ws| ==> ParamPair(ws[j], isFloat) == Some(pairs[j])
    ensures forall j :: 0 <= j < |pairs| ==> exists i :: 0 <= i < |ps| && pairs[j] == Bound(ps[i].0, ps[i].1, isFloat)
  {
    forall j | 0 <= j < |ws|
      ensures exists i :: 0 <= i < |ps| && ParamPair(ws[j], isFloat) == Some(Bound(ps[i].0, ps[i].1, isFloat))
    {
      var i := TokenOf(ps, ws, j);
      ParamTokenPair(ps[i].0, ps[i].1, isFloat);
    }
    pairs := ParamPairs(ws, isFloat).value;
  }

  /** The keys of the dict are lower-cased names. */
  lemma DictKeys(ps: seq<(string, Arg)>, pairs: seq<(string, Value)>, isFloat: string -> bool)
    requires forall j :: 0 <= j < |pairs| ==> exists i :: 0 <= i < |ps| && pairs[j] == Bound(ps[i].0, ps[i].1, isFloat)
    ensures Dict(pairs).Keys <= (set i | 0 <= i < |ps| :: Lower(ps[i].0))
  {
    forall k | k in Dict(pairs)
      ensures k in (set i | 0 <= i < |ps| :: Lower(ps[i].0))
    {
      var j :| 0 <= j < |pairs| && pairs[j].0 == k;
      var i :| 0 <= i < |ps| && pairs[j] == Bound(ps[i].0, ps[i].1, isFloat);
    }
  }

  /** Each name is bound in the pairs, and only to its own value. */
  lemma NameRead(ps: seq<(string, Arg)>, ws: seq<string>, isFloat: string -> bool, pairs: seq<(string, Value)>, i: nat)
    requires ValidNames(ps) && multiset(ws) == multiset(ParamTokens(ps)) && i < |ps|
    requires |pairs| == |ws| && forall j :: 0 <= j < |ws| ==> ParamPair(ws[j], isFloat) == Some(pairs[j])
    ensures Lower(ps[i].0) in Dict(pairs) && Dict(pairs)[Lower(ps[i].0)] == IntFloatStr(ArgText(ps[i].1), isFloat)
  {
    var toks := ParamTokens(ps);
    var key := Lower(ps[i].0);
    var v := IntFloatStr(ArgText(ps[i].1), isFloat);
    ParamTokenPair(ps[i].0, ps[i].1, isFloat);
    assert toks[i] in multiset(ws);
    var j :| 0 <= j < |ws| && ws[j] == toks[i];
    assert pairs[j].0 == key;
    forall j' | 0 <= j' < |pairs| && pairs[j'].0 == key
      ensures pairs[j'].1 == v
    {
      var i' := TokenOf(ps, ws, j');
      ParamTokenPair(ps[i'].0, ps[i'].1, isFloat);
    }
    DictUniform(pairs, key, v);
  }

  /** A key all of whose pairs carry the same value maps to it. */
  lemma {:induction false} DictUniform<K, V>(ps: seq<(K, V)>, k: K, v: V)
    requires exists j :: 0 <= j < |ps| && ps[j].0 == k
    requires forall j :: 0 <= j < |ps| && ps[j].0 == k ==> ps[j].1 == v
    ensures k in Dict(ps) && Dict(ps)[k] == v
  {
    var last := ps[|ps| - 1];
    if last.0 != k {
      var pre := ps[..|ps| - 1];
      var j :| 0 <= j < |ps| && ps[j].0 == k;
      assert pre[j] == ps[j];
      DictUniform(pre, k, v);
    }
  }

  // ---------------------------------------------------------------------------
  // cumul_iteration
  // ---------------------------------------------------------------------------

  /** Some element of a non-empty set. */
  lemma Pick(s: set<int>) returns (y: int)
    requires s != {}
    ensures y in s
  {
    if forall x :: x !in s {
      assert false;
    }
    y :| y in s;
  }

  /** The largest element of a finite non-empty set of integers. */
  lemma {:induction false} MaxOf(s: set<int>) returns (m: int)
    requires s != {}
    ensures m in s && forall x :: x in s ==> x <= m
    decreases |s|
  {
    var y := Pick(s);
    if s == {y} {
      m := y;
    } else {
      var m' := MaxOf(s - {y});
      m := if y > m' then y else m';
      forall x | x in s ensures x <= m {
        if x != y {
          assert x in s - {y};
        }
      }
    }
  }

  lemma MaxExists(s: set<int>)
    requires s != {}
    ensures exists m :: m in s && forall x :: x in s ==> x <= m
  {
    var m := MaxOf(s);
  }

  ghost function Max(s: set<int>): (m: int)
    requires s != {}
    ensures m in s && forall x :: x in s ==> x <= m
  {
    MaxExists(s);
    var m :| m in s && forall x :: x in s ==> x <= m;
    m
  }

  /** The sum of the counts over a set of keys, largest key first. */
  ghost function SetSum(m: map<int, int>, keys: set<int>): int
    requires keys <= m.Keys
    decreases keys
  {
    if keys == {} then 0
    else
      var k := Max(keys);
      m[k] + SetSum(m, keys - {k})
  }

  /** Adding a key below all the others adds its count. */
  lemma {:induction false} SetSumAddBelow(m: map<int, int>, keys: set<int>, k: int)
    requires keys <= m.Keys && k in m && k !in keys
    requires forall x :: x in keys ==> k < x
    ensures SetSum(m, keys + {k}) == SetSum(m, keys) + m[k]
    decreases keys
  {
    var t := keys + {k};
    if keys == {} {
      assert Max(t) == k;
      assert t - {k} == {};
    } else {
      var d := Max(keys);
      assert Max(t) == d;
      assert t - {d} == (keys - {d}) + {k};
      SetSumAddBelow(m, keys - {d}, k);
    }
  }

  /** The keys above it. */
  ghost function Above(m: map<int, int>, it: int): set<int>
  {
    set k | k in m && k > it
  }

  /** With the keys split into those done, all above those remaining, the
      keys above the largest remaining one are exactly those done. */
  lemma AboveSplit(m: map<int, int>, done: set<int>, rest: set<int>, k: int)
    requires rest + done == m.Keys && rest !! done
    requires forall a, b :: a in done && b in rest ==> b < a
    requires k in rest && forall x :: x in rest ==> x <= k
    ensures Above(m, k) == done
  {
    forall x | x in Above(m, k) ensures x in done {
      assert x !in rest;
    }
  }

  /** The failures count: distr[-1], or 0 when -1 is absent (line 53). */
  function Failures(distr: map<int, int>): int
  {
    if -1 in distr then distr[-1] else 0
  }

  ghost predicate NonNegative(distr: map<int, int>)
  {
    forall k :: k in distr ==> distr[k] >= 0
  }

  /** The key the descending sort gives next. */
  method Largest(rest: set<int>) returns (k: int)
    requires rest != {}
    ensures k in rest && forall x :: x in rest ==> x <= k
  {
    MaxExists(rest);
    k :| k in rest && forall x :: x in rest ==> x <= k;
  }

  /** The keys split into those visited and those left, every visited key
      above every key left. */
  ghost predicate Visited(m: map<int, int>, rest: set<int>, done: set<int>)
  {
    rest + done == m.Keys && rest !! done
    && forall a, b :: a in done && b in rest ==> b < a
  }

  /** Visiting the largest key left keeps the split. */
  lemma VisitLargest(m: map<int, int>, rest: set<int>, done: set<int>, k: int)
    requires Visited(m, rest, done)
    requires k in rest && forall x :: x in rest ==> x <= k
    ensures Visited(m, rest - {k}, done + {k})
    ensures done <= m.Keys && k in m && k !in done && forall x :: x in done ==> k < x
    ensures Above(m, k) == done
  {
    AboveSplit(m, done, rest, k);
  }

  /** sum(distr.values()), line 54. */
  method SumValues(distr: map<int, int>) returns (total: int)
    ensures total == SetSum(distr, distr.Keys)
  {
    total := 0;
    var rest := distr.Keys;
    ghost var done: set<int> := {};
    while rest != {}
      invariant Visited(distr, rest, done)
      invariant total == SetSum(distr, done)
      decreases |rest|
    {
      var k := Largest(rest);
      VisitLargest(distr, rest, done, k);
      SetSumAddBelow(distr, done, k);
      total := total + distr[k];
      rest := rest - {k};
      done := done + {k};
    }
    assert done == distr.Keys;
  }

  /** The entries of cumul so far: one per visited key, the failures plus
      the counts above it. */
  ghost predicate CumulSoFar(distr: map<int, int>, cumul: map<int, int>, done: set<int>)
  {
    cumul.Keys == done
    && forall it :: it in cumul ==> cumul[it] == Failures(distr) + SetSum(distr, Above(distr, it))
  }

  /** Non-increasing values, each at most bound. */
  ghost predicate Descending(cumul: map<int, int>, bound: int)
  {
    (forall it :: it in cumul ==> cumul[it] <= bound)
    && forall a, b :: a in cumul && b in cumul && a < b ==> cumul[b] <= cumul[a]
  }

  /** Recording the running total for the next key keeps CumulSoFar. */
  lemma CumulStep(distr: map<int, int>, cumul: map<int, int>, done: set<int>, k: int, failures: int)
    requires CumulSoFar(distr, cumul, done) && k !in done
    requires Above(distr, k) == done && failures == Failures(distr) + SetSum(distr, done)
    ensures CumulSoFar(distr, cumul[k := failures], done + {k})
  {
  }

  /** A key below all the others, given a value at least all of theirs,
      keeps the values non-increasing. */
  lemma DescendStep(cumul: map<int, int>, bound: int, k: int, c: int)
    requires Descending(cumul, bound) && c >= 0
    requires forall x :: x in cumul ==> k < x
    ensures Descending(cumul[k := bound], bound + c)
  {
  }

  /** What holds after each visit: the keys visited are those above the
      keys left and never -1, failures has added their counts, cumul holds
      their entries, and these do not increase while the counts are
      non-negative. */
  ghost predicate CumulInv(distr: map<int, int>, rest: set<int>, done: set<int>, cumul: map<int, int>, failures: int)
  {
    Visited(distr, rest, done) && -1 !in done
    && failures == Failures(distr) + SetSum(distr, done)
    && CumulSoFar(distr, cumul, done)
    && (NonNegative(distr) ==> Descending(cumul, failures))
  }

  /** One turn of the loop of lines 57-61 on a key other than -1. */
  lemma CumulVisit(distr: map<int, int>, rest: set<int>, done: set<int>, cumul: map<int, int>, failures: int, k: int)
    requires CumulInv(distr, rest, done, cumul, failures)
    requires k in rest && k != -1 && forall x :: x in rest ==> x <= k
    ensures CumulInv(distr, rest - {k}, done + {k}, cumul[k := failures], failures + distr[k])
  {
    VisitLargest(distr, rest, done, k);
    SetSumAddBelow(distr, done, k);
    CumulStep(distr, cumul, done, k, failures);
    if NonNegative(distr) {
      DescendStep(cumul, failures, k, distr[k]);
    }
  }

  /** When the keys run out or the largest left is -1, cumul holds exactly
      the keys above -1. */
  lemma CumulEnd(distr: map<int, int>, rest: set<int>, done: set<int>, cumul: map<int, int>, failures: int)
    requires CumulInv(distr, rest, done, cumul, failures)
    requires rest == {} || (-1 in rest && forall x :: x in rest ==> x <= -1)
    ensures forall it :: it in cumul <==> it in distr && (-1 in distr ==> it > -1)
  {
  }

  /** cumul_iteration, lines 52-62: the keys are visited from the largest
      down and the visit stops at -1. cumul[it] is the failures plus the
      counts of every iteration above it. The keys kept are all the keys
      above -1 (all the keys when -1 is absent), and with non-negative
      counts the values do not increase with it. */
  method CumulIteration(distr: map<int, int>) returns (cumul: map<int, int>, total: int)
    ensures total == SetSum(distr, distr.Keys)
    ensures forall it :: it in cumul <==> it in distr && (-1 in distr ==> it > -1)
    ensures forall it :: it in cumul ==> cumul[it] == Failures(distr) + SetSum(distr, Above(distr, it))
    ensures NonNegative(distr) ==> forall a, b :: a in cumul && b in cumul && a < b ==> cumul[b] <= cumul[a]
  {
    var failures := Failures(distr);
    total := SumValues(distr);
    cumul := map[];
    var rest := distr.Keys;
    var stop := false;
    ghost var done: set<int> := {};
    while rest != {} && !stop
      invariant CumulInv(distr, rest, done, cumul, failures)
      invariant stop ==> -1 in rest && forall x :: x in rest ==> x <= -1
      decreases |rest|, if stop then 0 else 1
    {
      var k := Largest(rest);
      if k == -1 {
        stop := true;
      } else {
        CumulVisit(distr, rest, done, cumul, failures, k);
        cumul := cumul[k := failures];
        failures := failures + distr[k];
        rest := rest - {k};
        done := done + {k};
      }
    }
    CumulEnd(distr, rest, done, cumul, failures);
  }
}
