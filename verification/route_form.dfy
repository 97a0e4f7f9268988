/**
 The desktop client's new-route form: the comma-separated stop-id field is
 split on ',', each piece is trimmed, blank pieces are dropped and every
 remaining piece must be an integer literal; the name must be non-empty and
 at least one id must remain, otherwise nothing is sent. The request body
 carries the name, the type and exactly the parsed ids.
 */
module RouteForm {
  import opened Wrappers

  /** Characters a string's strip() removes at either end (the ASCII part of
      the whitespace class). */
  predicate IsSpace(c: char)
  {
    c == ' ' || c == '\t' || c == '\n' || c == '\r'
    || c == '\U{000B}' || c == '\U{000C}'
    || c == '\U{001C}' || c == '\U{001D}' || c == '\U{001E}' || c == '\U{001F}'
  }

  predicate IsDigit(c: char)
  {
    '0' <= c <= '9'
  }

  /** Drop leading whitespace. */
  function StripStart(s: string): (r: string)
    ensures |r| <= |s| && r == s[|s| - |r|..]
    ensures r == [] || !IsSpace(r[0])
    ensures forall k :: 0 <= k < |s| - |r| ==> IsSpace(s[k])
  {
    if |s| > 0 && IsSpace(s[0]) then StripStart(s[1..]) else s
  }

  /** Drop trailing whitespace. */
  function StripEnd(s: string): (r: string)
    ensures |r| <= |s| && r == s[..|r|]
    ensures r == [] || !IsSpace(r[|r| - 1])
    ensures forall k :: |r| <= k < |s| ==> IsSpace(s[k])
  {
    if |s| > 0 && IsSpace(s[|s| - 1]) then StripEnd(s[..|s| - 1]) else s
  }

  /** `r` is `s[i..j]` and everything cut off before `i` and after `j` is
      whitespace. */
  predicate TrimOf(s: string, r: string, i: int, j: int)
  {
    && 0 <= i <= j <= |s| && r == s[i..j]
    && (forall k :: 0 <= k < i ==> IsSpace(s[k]))
    && (forall k :: j <= k < |s| ==> IsSpace(s[k]))
  }

  /** Drop whitespace at both ends; what is left starts and ends with a
      non-space character, or is empty exactly when the input was all
      whitespace. */
  function Strip(s: string): (r: string)
    ensures r == [] || (!IsSpace(r[0]) && !IsSpace(r[|r| - 1]))
    ensures r == [] <==> forall k :: 0 <= k < |s| ==> IsSpace(s[k])
    ensures exists i, j :: TrimOf(s, r, i, j)
  {
    var t := StripStart(s);
    var r := StripEnd(t);
    CutBoth(s, t, r);
    StripEmpty(s);
    r
  }

  /** Cutting whitespace off the front of `s` to get `t`, then off the back
      of `t` to get `r`, leaves `r` as a trim of `s`. */
  lemma CutBoth(s: string, t: string, r: string)
    requires |t| <= |s| && t == s[|s| - |t|..]
    requires forall k :: 0 <= k < |s| - |t| ==> IsSpace(s[k])
    requires |r| <= |t| && r == t[..|r|]
    requires forall k :: |r| <= k < |t| ==> IsSpace(t[k])
    ensures TrimOf(s, r, |s| - |t|, |s| - |t| + |r|)
  {
    var i := |s| - |t|;
    var j := i + |r|;
    assert r == s[i..j];
    forall k | j <= k < |s|
      ensures IsSpace(s[k])
    {
      assert s[k] == t[k - i];
    }
  }

  /** Everything is cut exactly when everything is whitespace. */
  lemma StripEmpty(s: string)
    ensures StripEnd(StripStart(s)) == [] <==> forall k :: 0 <= k < |s| ==> IsSpace(s[k])
  {
    var t := StripStart(s);
    var r := StripEnd(t);
    var i := |s| - |t|;
    if r == [] {
      assert t == [];
    } else {
      assert r[0] == t[0] == s[i];
    }
  }

  /** Pieces joined back with ',' between them. */
  function Join(ps: seq<string>): string
    requires |ps| > 0
  {
    if |ps| == 1 then ps[0] else ps[0] + "," + Join(ps[1..])
  }

  /** split(','): the maximal comma-free pieces, empty ones included. */
  function Split(s: string): (ps: seq<string>)
    ensures |ps| > 0
    ensures forall i :: 0 <= i < |ps| ==> ',' !in ps[i]
    ensures Join(ps) == s
  {
    if |s| == 0 then [""]
    else
      var rest := Split(s[1..]);
      if s[0] == ',' then
        assert s == "," + Join(rest);
        [""] + rest
      else
        var ps := [[s[0]] + rest[0]] + rest[1..];
        assert ps[1..] == rest[1..];
        assert Join(ps) == s by {
          if |rest| == 1 {
            assert Join(ps) == [s[0]] + rest[0];
          } else {
            assert Join(ps) == [s[0]] + rest[0] + "," + Join(rest[1..]);
          }
        }
        ps
  }

  /** Splitting what Join produced from comma-free pieces gives the pieces
      back. */
  lemma {:induction false} SplitJoin(ps: seq<string>)
    requires |ps| > 0
    requires forall i :: 0 <= i < |ps| ==> ',' !in ps[i]
    ensures Split(Join(ps)) == ps
    decreases ps
  {
    if |ps| == 1 {
      SplitPiece(ps[0], "", []);
    } else {
      SplitJoin(ps[1..]);
      SplitPiece(ps[0], "," + Join(ps[1..]), ps[1..]);
      assert ps == [ps[0]] + ps[1..];
    }
  }

  /** A comma-free piece in front of "" or of ",..." becomes the first piece
      of the split, the rest splitting as before. */
  lemma {:induction false} SplitPiece(p: string, tail: string, tailPieces: seq<string>)
    requires ',' !in p
    requires (tail == [] && tailPieces == []) || (|tail| > 0 && tail[0] == ',' && Split(tail[1..]) == tailPieces)
    ensures Split(p + tail) == [p] + tailPieces
    decreases |p|
  {
    if |p| == 0 {
      if |tail| > 0 {
        assert (p + tail)[1..] == tail[1..];
      }
    } else {
      SplitPiece(p[1..], tail, tailPieces);
      assert (p + tail)[1..] == p[1..] + tail;
      assert [p[0]] + p[1..] == p;
    }
  }

  /** Value of a run of decimal digits; the empty run has value 0. */
  function DigitsValue(ds: string): (n: nat)
    requires forall k :: 0 <= k < |ds| ==> IsDigit(ds[k])
    decreases |ds|
  {
    if |ds| == 0 then 0
    else
      assert IsDigit(ds[|ds| - 1]);
      DigitsValue(ds[..|ds| - 1]) * 10 + (ds[|ds| - 1] as int - '0' as int)
  }

  predicate AllDigits(ds: string)
  {
    |ds| > 0 && forall k :: 0 <= k < |ds| ==> IsDigit(ds[k])
  }

  /** The integer literals int() accepts here: an optional sign, then one or
      more decimal digits. */
  predicate IsIntLiteral(p: string)
  {
    AllDigits(p) || (|p| > 1 && (p[0] == '+' || p[0] == '-') && AllDigits(p[1..]))
  }

  /** int() of an already-stripped piece: its value, or None where int()
      raises. */
  function ParseInt(p: string): (r: Option<int>)
    ensures r.Some? <==> IsIntLiteral(p)
  {
    if AllDigits(p) then Some(DigitsValue(p))
    else if |p| > 1 && p[0] == '+' && AllDigits(p[1..]) then Some(DigitsValue(p[1..]))
    else if |p| > 1 && p[0] == '-' && AllDigits(p[1..]) then Some(0 - DigitsValue(p[1..]) as int)
    else None
  }

  /** Decimal digits of a natural number, most significant first. */
  function ShowNat(n: nat): (ds: string)
    ensures AllDigits(ds)
    ensures DigitsValue(ds) == n
    decreases n
  {
    var d := ['0' + (n % 10) as char];
    if n < 10 then d
    else
      var front := ShowNat(n / 10);
      var ds := front + d;
      assert ds[..|ds| - 1] == front;
      ds
  }

  /** str() of an integer. */
  function ShowInt(n: int): (s: string)
    ensures |s| > 0 && !IsSpace(s[0]) && !IsSpace(s[|s| - 1])
    ensures ',' !in s
  {
    if n >= 0 then ShowNat(n) else "-" + ShowNat(-n)
  }

  /** int() reads back what str() wrote. */
  lemma ParseShowInt(n: int)
    ensures ParseInt(ShowInt(n)) == Some(n)
  {
    if n < 0 {
      assert ("-" + ShowNat(-n))[1..] == ShowNat(-n);
    }
  }

  /** A leading zero does not change a run's value. */
  lemma {:induction false} DigitsValueLeadingZero(ds: string)
    requires forall k :: 0 <= k < |ds| ==> IsDigit(ds[k])
    ensures DigitsValue("0" + ds) == DigitsValue(ds)
    decreases |ds|
  {
    var zs := "0" + ds;
    if |ds| > 0 {
      var front := ds[..|ds| - 1];
      assert zs[..|zs| - 1] == "0" + front;
      assert zs[|zs| - 1] == ds[|ds| - 1];
      DigitsValueLeadingZero(front);
    } else {
      assert zs[..|zs| - 1] == [];
    }
  }

  /** int() ignores leading zeros: "007" reads as "7". */
  lemma ParseLeadingZero(ds: string)
    requires AllDigits(ds)
    ensures ParseInt("0" + ds) == ParseInt(ds)
  {
    DigitsValueLeadingZero(ds);
  }

  /** A sign in front of a digit run: '+' keeps its value, '-' negates it. */
  lemma ParseSigned(ds: string)
    requires AllDigits(ds)
    ensures ParseInt("+" + ds) == ParseInt(ds)
    ensures ParseInt("-" + ds) == Some(0 - ParseInt(ds).value)
  {
    assert ("+" + ds)[1..] == ds;
    assert ("-" + ds)[1..] == ds;
  }

  /** The pieces left after stripping, blank ones dropped, in input order. */
  function NonBlank(ps: seq<string>): (qs: seq<string>)
    ensures |qs| <= |ps|
    ensures forall i :: 0 <= i < |qs| ==> qs[i] != [] && !IsSpace(qs[i][0])
  {
    if |ps| == 0 then []
    else
      var p := Strip(ps[0]);
      if p == [] then NonBlank(ps[1..]) else [p] + NonBlank(ps[1..])
  }

  /** Blank-dropping distributes over concatenation, so the kept pieces keep
      their input order. */
  lemma {:induction false} NonBlankAppend(a: seq<string>, b: seq<string>)
    ensures NonBlank(a + b) == NonBlank(a) + NonBlank(b)
    decreases |a|
  {
    if |a| == 0 {
      assert a + b == b;
    } else {
      assert (a + b)[0] == a[0];
      assert (a + b)[1..] == a[1..] + b;
      NonBlankAppend(a[1..], b);
    }
  }

  /** A single piece is kept, stripped, exactly when it is not blank. */
  lemma NonBlankOne(p: string)
    ensures NonBlank([p]) == if Strip(p) == [] then [] else [Strip(p)]
  {
    assert [p][1..] == [];
  }

  predicate AllLiterals(qs: seq<string>)
  {
    forall i :: 0 <= i < |qs| ==> IsIntLiteral(qs[i])
  }

  /** The value of each literal, position by position. */
  function Values(qs: seq<string>): (ns: seq<int>)
    requires AllLiterals(qs)
    ensures |ns| == |qs|
    ensures forall i :: 0 <= i < |qs| ==> ParseInt(qs[i]) == Some(ns[i])
  {
    seq(|qs|, i requires 0 <= i < |qs| => ParseInt(qs[i]).value)
  }

  /** The list comprehension over the pieces: the value of every non-blank
      piece in order, or None as soon as one of them is not an integer. */
  function ParsePieces(ps: seq<string>): (r: Option<seq<int>>)
    ensures r.Some? <==> AllLiterals(NonBlank(ps))
    ensures r.Some? ==> r.value == Values(NonBlank(ps))
  {
    if |ps| == 0 then Some([])
    else
      var p := Strip(ps[0]);
      var rest := NonBlank(ps[1..]);
      if p == [] then
        assert NonBlank(ps) == rest;
        ParsePieces(ps[1..])
      else
        assert NonBlank(ps) == [p] + rest;
        LiteralsCons(p, rest);
        match ParseInt(p)
        case None => None
        case Some(n) =>
          match ParsePieces(ps[1..])
          case None => None
          case Some(ns) => Some([n] + ns)
  }

  /** A list of pieces is all literals exactly when its head and its tail
      are, and then its values are the head's value followed by the tail's. */
  lemma LiteralsCons(p: string, rest: seq<string>)
    ensures AllLiterals([p] + rest) <==> IsIntLiteral(p) && AllLiterals(rest)
    ensures AllLiterals([p] + rest) ==> Values([p] + rest) == [ParseInt(p).value] + Values(rest)
  {
    var qs := [p] + rest;
    assert forall i :: 0 <= i < |rest| ==> qs[i + 1] == rest[i];
    if AllLiterals(qs) {
      assert IsIntLiteral(qs[0]);
      assert Values(qs) == [ParseInt(p).value] + Values(rest);
    }
  }

  /** The stop-id field's value as a list of ids, or None when some non-blank
      piece is not an integer. */
  function ParseStopIds(text: string): (r: Option<seq<int>>)
    ensures r.Some? <==> AllLiterals(NonBlank(Split(text)))
    ensures r.Some? ==> r.value == Values(NonBlank(Split(text)))
  {
    ParsePieces(Split(text))
  }

  /** The ids written the way the field's placeholder shows them: "1, 2, 3". */
  function FormatIds(ids: seq<int>): string
    requires |ids| > 0
  {
    Join(FormatPieces(ids))
  }

  function FormatPieces(ids: seq<int>): (ps: seq<string>)
    requires |ids| > 0
    ensures |ps| == |ids| && ps[0] == ShowInt(ids[0])
    ensures forall i :: 0 < i < |ps| ==> ps[i] == " " + ShowInt(ids[i])
  {
    seq(|ids|, i requires 0 <= i < |ids| => if i == 0 then ShowInt(ids[0]) else " " + ShowInt(ids[i]))
  }

  /** Stripping leaves a string without edge whitespace alone, and removes
      one leading space in front of it. */
  lemma StripPadded(s: string)
    requires |s| > 0 && !IsSpace(s[0]) && !IsSpace(s[|s| - 1])
    ensures Strip(s) == s
    ensures Strip(" " + s) == s
  {
    assert (" " + s)[1..] == s;
  }

  /** Pieces that each strip to a literal of the matching id parse to
      exactly those ids. */
  lemma {:induction false} ParseLiteralPieces(ps: seq<string>, ids: seq<int>)
    requires |ps| == |ids|
    requires forall i :: 0 <= i < |ps| ==> Strip(ps[i]) != [] && ParseInt(Strip(ps[i])) == Some(ids[i])
    ensures ParsePieces(ps) == Some(ids)
    decreases |ps|
  {
    if |ps| > 0 {
      var tp, ti := ps[1..], ids[1..];
      LiteralTail(ps, ids);
      ParseLiteralPieces(tp, ti);
      ParsePiecesCons(ps);
      assert ids == [ids[0]] + ti;
    }
  }

  /** The literal correspondence of pieces and ids carries over to their tails. */
  lemma LiteralTail(ps: seq<string>, ids: seq<int>)
    requires |ps| == |ids| > 0
    requires forall i :: 0 <= i < |ps| ==> Strip(ps[i]) != [] && ParseInt(Strip(ps[i])) == Some(ids[i])
    ensures forall i :: 0 <= i < |ps| - 1 ==>
              Strip(ps[1..][i]) != [] && ParseInt(Strip(ps[1..][i])) == Some(ids[1..][i])
  {
    forall i | 0 <= i < |ps| - 1
      ensures Strip(ps[1..][i]) != [] && ParseInt(Strip(ps[1..][i])) == Some(ids[1..][i])
    {
      assert ps[1..][i] == ps[i + 1] && ids[1..][i] == ids[i + 1];
    }
  }

  /** A head piece that strips to a literal is parsed in front of the tail. */
  lemma ParsePiecesCons(ps: seq<string>)
    requires |ps| > 0
    ensures var p := Strip(ps[0]);
      p != [] && ParseInt(p).Some? && ParsePieces(ps[1..]).Some? ==>
        ParsePieces(ps) == Some([ParseInt(p).value] + ParsePieces(ps[1..]).value)
  {
  }

  /** Parsing what FormatIds wrote gives the ids back, in order. */
  lemma FormatParseRoundTrip(ids: seq<int>)
    requires |ids| > 0
    ensures ParseStopIds(FormatIds(ids)) == Some(ids)
  {
    var ps := FormatPieces(ids);
    forall i | 0 <= i < |ps|
      ensures ',' !in ps[i] && Strip(ps[i]) != [] && ParseInt(Strip(ps[i])) == Some(ids[i])
    {
      StripPadded(ShowInt(ids[i]));
      ParseShowInt(ids[i]);
    }
    SplitJoin(ps);
    ParseLiteralPieces(ps, ids);
  }

  /** Why the form refuses to send. */
  datatype FormError = BadIdFormat | MissingFields

  /** The request body of a new route. */
  datatype RoutePayload = RoutePayload(name: string, kind: string, stopIds: seq<int>)

  /** The form's submit action up to the request: a bad id aborts first, then
      an empty name or an empty id list; otherwise the payload to send. */
  function SubmitRoute(name: string, kind: string, text: string): (r: Result<RoutePayload, FormError>)
    ensures r == Err(BadIdFormat) <==> ParseStopIds(text).None?
    ensures r == Err(MissingFields) <==> ParseStopIds(text).Some? && (name == [] || ParseStopIds(text).value == [])
    ensures r.Ok? ==> r.value.name == name && r.value.kind == kind && Some(r.value.stopIds) == ParseStopIds(text)
    ensures r.Ok? ==> name != [] && |r.value.stopIds| > 0
  {
    match ParseStopIds(text)
    case None => Err(BadIdFormat)
    case Some(ids) =>
      if name == [] || ids == [] then Err(MissingFields)
      else Ok(RoutePayload(name, kind, ids))
  }

  /** A filled-in form whose field lists the ids as the placeholder shows
      sends exactly those ids. */
  lemma SubmitFormatted(name: string, kind: string, ids: seq<int>)
    requires name != [] && |ids| > 0
    ensures SubmitRoute(name, kind, FormatIds(ids)) == Ok(RoutePayload(name, kind, ids))
  {
    FormatParseRoundTrip(ids);
  }

  /** A field holding only commas and whitespace parses to no ids, so the
      form refuses it as incomplete. */
  lemma BlankFieldIsMissing(name: string, kind: string, text: string)
    requires forall k :: 0 <= k < |text| ==> text[k] == ',' || IsSpace(text[k])
    ensures SubmitRoute(name, kind, text) == Err(MissingFields)
  {
    var ps := Split(text);
    BlankPieces(text, ps);
    NonBlankOfBlanks(ps);
  }

  lemma {:induction false} BlankPieces(text: string, ps: seq<string>)
    requires forall k :: 0 <= k < |text| ==> text[k] == ',' || IsSpace(text[k])
    requires ps == Split(text)
    ensures forall i :: 0 <= i < |ps| ==> Strip(ps[i]) == []
    decreases |text|
  {
    if |text| > 0 {
      BlankPieces(text[1..], Split(text[1..]));
    }
  }

  lemma {:induction false} NonBlankOfBlanks(ps: seq<string>)
    requires forall i :: 0 <= i < |ps| ==> Strip(ps[i]) == []
    ensures NonBlank(ps) == []
    decreases |ps|
  {
    if |ps| > 0 {
      NonBlankOfBlanks(ps[1..]);
    }
  }
}
