/**
 * `extract_content`: turning the printed form of a frozenset into a storable label.
 *
 * The function applies `re.match(r"frozenset\({(.+?)}\)", s)`: anchored at the
 * start, the literal prefix `frozenset({`, then the shortest non-empty run of
 * characters other than a line break that is followed by `})`. On a match it
 * returns that run with every leading and trailing `'` stripped; otherwise None.
 */
module Labels {
  import opened Results

  /** The literal text the pattern must start with. */
  const Prefix: string := "frozenset({"

  /** `})` starts at index j of s. */
  predicate CloseAt(s: string, j: int)
  {
    0 <= j && j + 2 <= |s| && s[j] == '}' && s[j + 1] == ')'
  }

  /** s contains no `})`. */
  predicate NoClose(s: string)
  {
    forall j :: 0 <= j < |s| ==> !CloseAt(s, j)
  }

  /**
   * The pattern matches s with its group ending at e: s starts with the prefix, the
   * group s[11..e] is non-empty and holds no line break (`.` does not match one),
   * `})` follows it, and no shorter group is followed by `})` (the lazy `+?`).
   */
  predicate MatchEnd(s: string, e: int)
  {
    && |Prefix| + 1 <= e
    && |Prefix| <= |s| && s[..|Prefix|] == Prefix
    && CloseAt(s, e)
    && (forall i :: |Prefix| <= i < e ==> s[i] != '\n')
    && (forall i :: |Prefix| + 1 <= i < e ==> !CloseAt(s, i))
  }

  /** At most one group end matches. */
  lemma MatchEndUnique(s: string, e: int, e': int)
    requires MatchEnd(s, e) && MatchEnd(s, e')
    ensures e == e'
  {
  }

  /** Grows the lazy group one character at a time, from index j, until `})` follows it. */
  function ScanClose(s: string, j: nat): (r: Option<nat>)
    requires |Prefix| + 1 <= j
    requires |Prefix| <= |s| && s[..|Prefix|] == Prefix
    requires forall i :: |Prefix| <= i < j && i < |s| ==> s[i] != '\n'
    requires forall i :: |Prefix| + 1 <= i < j ==> !CloseAt(s, i)
    ensures r.Some? ==> MatchEnd(s, r.value)
    ensures r.None? ==> forall e :: !MatchEnd(s, e)
    decreases |s| - j
  {
    if j + 2 > |s| then None
    else if CloseAt(s, j) then Some(j)
    else if s[j] == '\n' then None
    else ScanClose(s, j + 1)
  }

  /** Removes every leading `'`. */
  function StripLeading(s: string): (r: string)
    ensures |r| <= |s| && r == s[|s| - |r|..]
    ensures forall i :: 0 <= i < |s| - |r| ==> s[i] == '\''
    ensures r == [] || r[0] != '\''
  {
    if s != [] && s[0] == '\'' then StripLeading(s[1..]) else s
  }

  /** Removes every trailing `'`. */
  function StripTrailing(s: string): (r: string)
    ensures |r| <= |s| && r == s[..|r|]
    ensures forall i :: |r| <= i < |s| ==> s[i] == '\''
    ensures r == [] || r[|r| - 1] != '\''
  {
    if s != [] && s[|s| - 1] == '\'' then StripTrailing(s[..|s| - 1]) else s
  }

  /** Python's `s.strip("'")`. */
  function StripQuotes(s: string): (r: string)
    ensures |r| <= |s|
    ensures r == [] || (r[0] != '\'' && r[|r| - 1] != '\'')
  {
    StripTrailing(StripLeading(s))
  }

  /** r is the piece s[i..i + |r|], with only `'` before and after it. */
  predicate QuoteFramed(s: string, i: nat, r: string)
  {
    && i + |r| <= |s| && r == s[i..i + |r|]
    && (forall k :: 0 <= k < i ==> s[k] == '\'')
    && (forall k :: i + |r| <= k < |s| ==> s[k] == '\'')
  }

  /**
   * What `strip("'")` leaves: the piece of s between a leading run and a trailing run
   * of `'`; by the function's own contract neither end of it is a `'`.
   */
  lemma StripQuotesExact(s: string) returns (i: nat)
    ensures QuoteFramed(s, i, StripQuotes(s))
  {
    var l := StripLeading(s);
    var r := StripTrailing(l);
    i := |s| - |l|;
    InnerPiece(s, l, r, i);
    assert StripQuotes(s) == r;
  }

  /** A prefix r of the suffix l = s[i..], followed in l by quotes only, is s[i..i + |r|]. */
  lemma InnerPiece(s: string, l: string, r: string, i: nat)
    requires i + |l| == |s| && l == s[i..]
    requires |r| <= |l| && r == l[..|r|]
    requires forall k :: |r| <= k < |l| ==> l[k] == '\''
    ensures r == s[i..i + |r|]
    ensures forall k :: i + |r| <= k < |s| ==> s[k] == '\''
  {
    forall k | i + |r| <= k < |s| ensures s[k] == '\'' {
      assert s[k] == l[k - i];
    }
  }

  /** `extract_content(s)`. */
  function ExtractContent(s: string): (r: Option<string>)
    ensures r.Some? <==> exists e :: MatchEnd(s, e)
    ensures forall e :: MatchEnd(s, e) ==> r == Some(StripQuotes(s[|Prefix|..e]))
  {
    if |s| <= |Prefix| || s[..|Prefix|] != Prefix || s[|Prefix|] == '\n' then
      None
    else
      match ScanClose(s, |Prefix| + 1)
      case None => None
      case Some(e) =>
        assert forall e' :: MatchEnd(s, e') ==> e' == e by {
          forall e' | MatchEnd(s, e') ensures e' == e {
            MatchEndUnique(s, e, e');
          }
        }
        Some(StripQuotes(s[|Prefix|..e]))
  }

  /** A match of s is a match of every extension of s. */
  lemma MatchEndExtends(s: string, t: string, e: int)
    requires MatchEnd(s, e)
    ensures MatchEnd(s + t, e)
    ensures (s + t)[|Prefix|..e] == s[|Prefix|..e]
  {
    var u := s + t;
    assert u[..|Prefix|] == s[..|Prefix|];
    assert CloseAt(u, e) by {
      assert u[e] == s[e] && u[e + 1] == s[e + 1];
    }
    forall i | |Prefix| <= i < e ensures u[i] != '\n' {
      assert u[i] == s[i];
    }
    forall i | |Prefix| + 1 <= i < e ensures !CloseAt(u, i) {
      assert !CloseAt(s, i);
      assert u[i] == s[i] && u[i + 1] == s[i + 1];
    }
  }

  /** What follows the closing `})` does not change the result. */
  lemma ExtractIgnoresSuffix(s: string, t: string)
    requires ExtractContent(s).Some?
    ensures ExtractContent(s + t) == ExtractContent(s)
  {
    var e :| MatchEnd(s, e);
    MatchEndExtends(s, t, e);
  }

  /** The printed empty frozenset, and a set display with nothing inside, give None. */
  lemma ExtractEmptySet()
    ensures ExtractContent("frozenset()") == None
    ensures ExtractContent("frozenset({})") == None
  {
    assert "frozenset()"[..|Prefix|] != Prefix by {
      assert "frozenset()"[10] != Prefix[10];
    }
  }

  /** A `})` inside a concatenation lies in one part, unless a `}` ends a and a `)` starts b. */
  lemma ConcatNoClose(a: string, b: string)
    requires NoClose(a) && NoClose(b)
    requires a == [] || b == [] || a[|a| - 1] != '}' || b[0] != ')'
    ensures NoClose(a + b)
  {
    var s := a + b;
    forall j | 0 <= j < |s| ensures !CloseAt(s, j) {
      if j + 2 <= |a| {
        assert !CloseAt(a, j);
      } else if j >= |a| {
        assert !CloseAt(b, j - |a|);
      }
    }
  }

  /** The group ends where the appended `})` starts, when the group holds no `})` of its own. */
  lemma ExtractWrapped(c: string)
    requires c != [] && NoClose(c) && c[|c| - 1] != '}'
    requires forall i :: 0 <= i < |c| ==> c[i] != '\n'
    ensures ExtractContent(Prefix + c + "})") == Some(StripQuotes(c))
  {
    var s := Prefix + c + "})";
    var e := |Prefix| + |c|;
    assert s[..|Prefix|] == Prefix;
    assert s[|Prefix|..e] == c;
    forall i | |Prefix| + 1 <= i < e ensures !CloseAt(s, i) {
      if i + 1 < e {
        assert !CloseAt(c, i - |Prefix|);
      }
    }
    assert MatchEnd(s, e);
  }

  /** The labels of a set joined as Python prints them: `a', 'b', 'c`. */
  function JoinQuoted(labels: seq<string>): string
  {
    if labels == [] then ""
    else if |labels| == 1 then labels[0]
    else labels[0] + "', '" + JoinQuoted(labels[1..])
  }

  /** The printed form of a frozenset of string labels, listed in the given iteration order. */
  function Render(labels: seq<string>): string
  {
    Prefix + "'" + JoinQuoted(labels) + "'" + "})"
  }

  /** Printable labels: no `})` and no line break. */
  predicate PlainLabel(x: string)
  {
    NoClose(x) && forall i :: 0 <= i < |x| ==> x[i] != '\n'
  }

  lemma {:induction false} JoinQuotedPlain(labels: seq<string>)
    requires forall x :: x in labels ==> PlainLabel(x)
    ensures PlainLabel(JoinQuoted(labels))
  {
    if |labels| > 1 {
      var rest := JoinQuoted(labels[1..]);
      JoinQuotedPlain(labels[1..]);
      assert labels[0] in labels;
      var sep := "', '";
      assert NoClose(sep);
      ConcatNoClose(sep, rest);
      ConcatNoClose(labels[0], sep + rest);
      assert labels[0] + sep + rest == labels[0] + (sep + rest);
    } else if |labels| == 1 {
      assert labels[0] in labels;
    }
  }

  /**
   * The printed set comes back as its inner text: the labels joined by `', '` (so a
   * multi-item set keeps those separators), provided that text neither starts nor
   * ends with a quote.
   */
  lemma ExtractRendered(labels: seq<string>)
    requires labels != []
    requires forall x :: x in labels ==> PlainLabel(x)
    requires var j := JoinQuoted(labels); j == [] || (j[0] != '\'' && j[|j| - 1] != '\'')
    ensures ExtractContent(Render(labels)) == Some(JoinQuoted(labels))
  {
    var j := JoinQuoted(labels);
    JoinQuotedPlain(labels);
    QuotedPlain(j);
    var c := "'" + j + "'";
    assert Render(labels) == Prefix + c + "})";
    ExtractWrapped(c);
    StripQuoted(j);
  }

  /** Quoting a plain text keeps it plain. */
  lemma QuotedPlain(j: string)
    requires PlainLabel(j)
    ensures PlainLabel("'" + j + "'")
  {
    ConcatNoClose("'", j);
    ConcatNoClose("'" + j, "'");
  }

  /** Stripping the quotes around a text that neither starts nor ends with one gives the text. */
  lemma StripQuoted(j: string)
    requires j == [] || (j[0] != '\'' && j[|j| - 1] != '\'')
    ensures StripQuotes("'" + j + "'") == j
  {
    var c := "'" + j + "'";
    assert c[1..] == j + "'";
    if j != [] {
      assert StripLeading(c) == j + "'";
      assert StripTrailing(j + "'") == j by {
        assert (j + "'")[..|j|] == j;
      }
    }
  }

  /** A one-label set prints as `frozenset({'X'})`. */
  lemma RenderSingle(x: string)
    ensures Render([x]) == "frozenset({'" + x + "'})"
  {
  }

  /** `frozenset({'X'})` gives back X exactly. */
  lemma ExtractSingle(x: string)
    requires PlainLabel(x)
    requires x == [] || (x[0] != '\'' && x[|x| - 1] != '\'')
    ensures ExtractContent("frozenset({'" + x + "'})") == Some(x)
  {
    assert x in [x];
    ExtractRendered([x]);
    RenderSingle(x);
  }

  /** A label holding an apostrophe, which Python prints in double quotes, keeps those quotes. */
  lemma ExtractDoubleQuoted(x: string)
    requires PlainLabel(x)
    ensures ExtractContent("frozenset({\"" + x + "\"})") == Some("\"" + x + "\"")
  {
    var c := "\"" + x + "\"";
    ConcatNoClose("\"", x);
    ConcatNoClose("\"" + x, "\"");
    ExtractWrapped(c);
    assert StripLeading(c) == c;
    assert StripTrailing(c) == c;
    RenderDoubleQuoted(x);
  }

  /** The double-quoted form is the prefix, the quoted label and the closing `})`. */
  lemma RenderDoubleQuoted(x: string)
    ensures "frozenset({\"" + x + "\"})" == Prefix + ("\"" + x + "\"") + "})"
  {
  }
}
