/** The two pieces of Go's strconv package the core relies on: boolean
    literal parsing (redact tags) and `%q` quoting (error messages). */
module StrConv {
  import opened Wrappers

  /** strconv.ParseBool. `None` is its "invalid syntax" error. The accepted
      spellings are a fixed list, not a case-insensitive comparison. */
  function ParseBool(s: string): (r: Option<bool>)
    ensures r.Some? ==> 1 <= |s| <= 5
    ensures r.Some? ==> (r.value <==> s[0] in "1tT")
    ensures r.Some? && |s| > 1 ==> (s[1..] == Lower(s[1..]) || s[1..] == Upper(s[1..]))
  {
    match s
    case "1" | "t" | "T" | "TRUE" | "true" | "True" => Some(true)
    case "0" | "f" | "F" | "FALSE" | "false" | "False" => Some(false)
    case _ => None
  }

  /** strconv.FormatBool. */
  function FormatBool(b: bool): string {
    if b then "true" else "false"
  }

  function UpperChar(c: char): char {
    if 'a' <= c <= 'z' then (c as int - 'a' as int + 'A' as int) as char else c
  }

  function LowerChar(c: char): char {
    if 'A' <= c <= 'Z' then (c as int - 'A' as int + 'a' as int) as char else c
  }

  function Upper(s: string): (r: string)
    ensures |r| == |s|
  {
    seq(|s|, i requires 0 <= i < |s| => UpperChar(s[i]))
  }

  function Lower(s: string): (r: string)
    ensures |r| == |s|
  {
    seq(|s|, i requires 0 <= i < |s| => LowerChar(s[i]))
  }

  /** Every value is accepted in its formatted spelling, upper-cased, with
      only its first letter upper-cased, and as its first letter alone in
      either case. */
  lemma ParseBoolAcceptsItsSpellings(b: bool)
    ensures ParseBool(FormatBool(b)) == Some(b)
    ensures ParseBool(Upper(FormatBool(b))) == Some(b)
    ensures ParseBool([UpperChar(FormatBool(b)[0])] + FormatBool(b)[1..]) == Some(b)
    ensures ParseBool(FormatBool(b)[..1]) == Some(b)
    ensures ParseBool([UpperChar(FormatBool(b)[0])]) == Some(b)
    ensures ParseBool(if b then "1" else "0") == Some(b)
  {
    if b {
      assert Upper("true") == "TRUE";
      assert [UpperChar('t')] + "true"[1..] == "True";
      assert "true"[..1] == "t";
    } else {
      assert Upper("false") == "FALSE";
      assert [UpperChar('f')] + "false"[1..] == "False";
      assert "false"[..1] == "f";
    }
  }

  /** The six spellings of `b`: formatted, upper-cased, with only its first
      letter upper-cased, its first letter alone in either case, and its digit. */
  function Spellings(b: bool): seq<string> {
    var w := FormatBool(b);
    [w, Upper(w), [UpperChar(w[0])] + w[1..], w[..1], [UpperChar(w[0])], if b then "1" else "0"]
  }

  /** ParseBool accepts the spellings of a value and nothing else: every
      other string is a syntax error. */
  lemma ParseBoolExactlyItsSpellings(s: string, b: bool)
    ensures ParseBool(s) == Some(b) <==> s in Spellings(b)
  {
    assert Spellings(true) == ["true", "TRUE", "True", "t", "T", "1"] by {
      assert Upper("true") == "TRUE";
      assert [UpperChar('t')] + "true"[1..] == "True";
      assert "true"[..1] == "t";
    }
    assert Spellings(false) == ["false", "FALSE", "False", "f", "F", "0"] by {
      assert Upper("false") == "FALSE";
      assert [UpperChar('f')] + "false"[1..] == "False";
      assert "false"[..1] == "f";
    }
  }

  /** A string that is a spelling of neither value is refused. */
  lemma ParseBoolRefusesTheRest(s: string)
    requires s !in Spellings(true) && s !in Spellings(false)
    ensures ParseBool(s) == None
  {
    ParseBoolExactlyItsSpellings(s, true);
    ParseBoolExactlyItsSpellings(s, false);
  }

  /** Mixed case and other near misses are syntax errors. */
  lemma ParseBoolRejectsOtherSpellings()
    ensures ParseBool("tRuE") == None
    ensures ParseBool("yes") == None
    ensures ParseBool("notbool") == None
    ensures ParseBool("") == None
    ensures ParseBool(" true") == None
  {
  }

  // ---------------------------------------------------------------------
  // %q quoting
  // ---------------------------------------------------------------------

  /** The body of a Go double-quoted literal: `"` and `\` are escaped. */
  function Escape(s: string): (r: string)
    ensures |r| >= |s|
    ensures (forall i :: 0 <= i < |s| ==> s[i] != '"' && s[i] != '\\') ==> r == s
  {
    if s == [] then []
    else if s[0] == '"' || s[0] == '\\' then ['\\', s[0]] + Escape(s[1..])
    else [s[0]] + Escape(s[1..])
  }

  /** strconv.Quote, as used by `%q`. */
  function Quote(s: string): (r: string)
    ensures |r| >= |s| + 2 && r[0] == '"' && r[|r| - 1] == '"'
  {
    "\"" + Escape(s) + "\""
  }

  /** A string with no quote and no backslash is quoted as itself between
      double quotes. */
  lemma QuotePlain(s: string)
    requires '"' !in s && '\\' !in s
    ensures Quote(s) == "\"" + s + "\""
  {
    assert forall i :: 0 <= i < |s| ==> s[i] != '"' && s[i] != '\\';
  }

  /** Inverse of `Escape`: rejects a bare quote and a dangling or unknown escape. */
  function Unescape(t: string): Option<string> {
    if t == [] then Some([])
    else if t[0] == '\\' then
      if |t| >= 2 && (t[1] == '"' || t[1] == '\\') then
        match Unescape(t[2..])
        case Some(rest) => Some([t[1]] + rest)
        case None => None
      else None
    else if t[0] == '"' then None
    else
      match Unescape(t[1..])
      case Some(rest) => Some([t[0]] + rest)
      case None => None
  }

  /** strconv.Unquote restricted to the escapes `Quote` produces. */
  function Unquote(q: string): Option<string> {
    if |q| >= 2 && q[0] == '"' && q[|q| - 1] == '"' then Unescape(q[1..|q| - 1]) else None
  }

  lemma {:induction false} UnescapeEscape(s: string)
    ensures Unescape(Escape(s)) == Some(s)
  {
    if s != [] {
      UnescapeEscape(s[1..]);
      assert s == [s[0]] + s[1..];
      if s[0] == '"' || s[0] == '\\' {
        var e := Escape(s);
        assert e[0] == '\\' && e[1] == s[0];
        assert e[2..] == Escape(s[1..]);
      } else {
        assert Escape(s)[1..] == Escape(s[1..]);
      }
    }
  }

  /** Quoting loses nothing: the quoted text can be read back exactly. */
  lemma QuoteRoundTrip(s: string)
    ensures Unquote(Quote(s)) == Some(s)
  {
    var q := Quote(s);
    assert q[1..|q| - 1] == Escape(s);
    UnescapeEscape(s);
  }
}
