/** The named bytes, words and limits of the model, as the characters and numbers they stand for. */
module Literals {
  import opened Bytes
  import opened DetectGrammar
  import opened Settings
  import L = JsonLex
  import N = JsonNumber
  import T = JsonTree
  import G = JsonGrammar
  import Q = UrlQuery
  import K = KeyCache
  import P = KeyLookup
  import M = StreamMembers
  import E = TreeEncoder
  import R = ReceiverCopy

  lemma BytesAre()
    ensures Is(TAB, '\t') && Is(LF, '\n') && Is(CR, '\r') && Is(SPACE, ' ') && Is(QUOTE, '"') && Is(COMMA, ',')
    ensures Is(MINUS, '-') && Is(DOT, '.') && Is(COLON, ':') && Is(BACKSLASH, '\\')
    ensures Is(LBRACKET, '[') && Is(RBRACKET, ']') && Is(LBRACE, '{') && Is(RBRACE, '}')
    ensures Is(Q.AMPERSAND, '&') && Is(Q.SEMICOLON, ';') && Is(Q.EQUALS, '=') && Is(Q.PLUS, '+') && Is(Q.PERCENT, '%')
    ensures forall b: byte :: L.IsSpace(b) <==> Is(b, ' ') || Is(b, '\t') || Is(b, '\n') || Is(b, '\r')
    ensures forall b: byte :: N.IsE(b) <==> Is(b, 'e') || Is(b, 'E')
    ensures forall b: byte :: N.IsSign(b) <==> Is(b, '-') || Is(b, '+')
  {
  }

  lemma WordsAre()
    ensures Spells(T.TRUE, "true") && Spells(T.FALSE, "false") && Spells(T.NULL, "null") && Spells(ROOT, "$")
  {
  }

  lemma LimitsAre()
    ensures MAX_ERRORS == 64 && K.SMALL_CACHE == 16 && K.MAX_ENTRIES == 4096 && K.MAX_CHAIN == 8
    ensures M.INDEX_CUTOFF == 32 && E.INLINE_DEPTHS == 8 && P.ASCII_BUFFER == 64 && R.CAP == 2147483647
  {
  }

  /* ---------- documents, byte by byte ---------- */

  ghost predicate White(w: bytes) { forall k :: 0 <= k < |w| ==> Is(w[k], ' ') || Is(w[k], '\t') || Is(w[k], '\n') || Is(w[k], '\r') }

  lemma SpacesJoin(w: bytes, gap: bytes)
    requires White(w) && L.AllSpace(gap)
    ensures L.AllSpace(w + gap) && L.AllSpace(gap + w)
  {
    BytesAre();
  }

  /** White space around a document makes no difference. */
  lemma PaddingIsFree(w: bytes, d: bytes, v: bytes)
    requires White(w) && White(v) && T.ParseDocument(d).Some?
    ensures T.ParseDocument(w + d + v) == T.ParseDocument(d)
  {
    hide T.ParseDocument, G.Text, G.WellFormed, G.Tree, White, L.AllSpace;
    var n := T.ParseDocument(d).value;
    G.ParseIffDerives(d, n);
    var i: G.Item :| G.WellFormedItem(i) && G.ItemText(i) == d && G.Tree(i.value) == n;
    var padded := G.Item(w + i.before, i.value, i.after + v);
    SpacesJoin(w, i.before);
    SpacesJoin(v, i.after);
    assert G.ItemText(padded) == w + d + v;
    G.DocumentParsed(w + d + v, padded);
  }

  /** What a document may start with. */
  ghost predicate StartsValue(b: byte) {
    Is(b, '"') || Is(b, '{') || Is(b, '[') || Is(b, 't') || Is(b, 'f') || Is(b, 'n') || Is(b, '-') || Digit(b)
  }

  lemma NumberStarts(t: bytes)
    requires N.Accepts(t)
    ensures t != [] && (Is(t[0], '-') || Digit(t[0]))
  {
    hide N.EndsWell, N.AfterFrac, N.AfterInt;
    ClassesAre(t[0]);
  }

  lemma PrimitiveStarts(t: bytes)
    requires T.PrimitiveNode(t).Some?
    ensures t != [] && StartsValue(t[0])
  {
    hide N.Accepts;
    WordsAre();
    assert "true"[0] == 't' && "false"[0] == 'f' && "null"[0] == 'n';
    if t != T.TRUE && t != T.FALSE && t != T.NULL { NumberStarts(t); }
  }

  /** A document starts, past spaces, tabs and line ends, with a quote, a bracket, a digit, a minus or a word. */
  lemma DocumentStarts(d: bytes)
    requires T.ParseDocument(d).Some?
    ensures exists k :: 0 <= k < |d| && StartsValue(d[k]) && White(d[..k])
  {
    hide T.ParseMembers, T.ParseItems, T.ParseString, T.PrimitiveNode;
    BytesAre();
    var p := L.SpaceEnd(d, 0);
    assert White(d[..p]);
    if d[p] != QUOTE && d[p] != LBRACE && d[p] != LBRACKET {
      var e := L.PrimitiveEnd(d, p);
      PrimitiveStarts(d[p..e]);
      assert d[p..e][0] == d[p];
    }
    assert StartsValue(d[p]);
  }

  /* ---------- paths ---------- */

  /** The number a decimal text writes. */
  ghost function ReadDecimal(t: bytes): int {
    if t == [] then 0 else ReadDecimal(t[..|t| - 1]) * 10 + (t[|t| - 1] as int - '0' as int)
  }

  /** An index is written in decimal digits, without leading zeros. */
  lemma {:induction false} DecimalReads(n: nat)
    ensures var t := Decimal(n);
      && ReadDecimal(t) == n && t != [] && (forall k :: 0 <= k < |t| ==> Digit(t[k])) && (|t| > 1 ==> !Is(t[0], '0'))
    decreases n
  {
    if n >= 10 {
      DecimalReads(n / 10);
      var t := Decimal(n / 10);
      assert Decimal(n)[..|t|] == t;
      assert n == n / 10 * 10 + n % 10;
    } else {
      assert Decimal(n)[..0] == [];
    }
  }

  /** The path of an element is that of its array and the index in brackets; different elements have different paths. */
  lemma ElementPaths(parent: bytes, i: nat, j: nat)
    ensures PathForIndex(parent, i) == parent + ['[' as int] + Decimal(i) + [']' as int]
    ensures PathForIndex(parent, i) == PathForIndex(parent, j) <==> i == j
  {
    DecimalReads(i);
    DecimalReads(j);
    var p, q := PathForIndex(parent, i), PathForIndex(parent, j);
    assert p[|parent| + 1..|p| - 1] == Decimal(i) && q[|parent| + 1..|q| - 1] == Decimal(j);
  }

  /** Likewise for the members of an object. */
  lemma MemberPaths(parent: bytes, a: bytes, b: bytes)
    ensures PathFor(parent, a) == (if parent == [] then ['$' as int] else parent) + ['[' as int] + a + [']' as int]
    ensures PathFor(parent, a) == PathFor(parent, b) <==> a == b
  {
    var n := if parent == [] then 1 else |parent|;
    var p, q := PathFor(parent, a), PathFor(parent, b);
    assert p[n + 1..|p| - 1] == a && q[n + 1..|q| - 1] == b;
  }
}
