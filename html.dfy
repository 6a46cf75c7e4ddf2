/** The two pieces of page rendering the application computes rather than pastes:
    escape_html, applied to untrusted review text, and the five-star rating string. */
module Html {
  import opened Wrappers
  import opened Text

  /** The three characters escape_html rewrites. */
  const SPECIAL: set<char> := {'&', '<', '>'}

  /** The entity escape_html writes for a special character. */
  function Entity(c: char): string {
    if c == '&' then "&amp;" else if c == '<' then "&lt;" else if c == '>' then "&gt;" else [c]
  }

  /** `s` with the characters in `e` written as entities and every other character kept:
      the string after some, all or none of escape_html's replace steps. */
  function EncodeSome(e: set<char>, s: string): string
    decreases |s|
  {
    if s == [] then [] else (if s[0] in e then Entity(s[0]) else [s[0]]) + EncodeSome(e, s[1..])
  }

  /** backend/application.py's escape_html: `(s or "")` with `&`, then `<`, then `>` replaced. */
  function EscapeHtml(s: Option<string>): (r: string)
    ensures r == EncodeSome(SPECIAL, s.GetOr(""))
    ensures '<' !in r && '>' !in r
  {
    var t := s.GetOr("");
    EscapeSteps(t);
    EncodedHasNoAngle(t);
    ReplaceAll(ReplaceAll(ReplaceAll(t, "&", "&amp;"), "<", "&lt;"), ">", "&gt;")
  }

  /** Undoes the escaping by replacing `&lt;`, then `&gt;`, then `&amp;`. */
  function Unescape(s: string): string {
    ReplaceAll(ReplaceAll(ReplaceAll(s, "&lt;", "<"), "&gt;", ">"), "&amp;", "&")
  }

  lemma EncodeNone(s: string)
    ensures EncodeSome({}, s) == s
  {
  }

  /** One forward replace step: replacing c by its entity adds c to the encoded set, provided
      the entities already written do not contain c (so `&` must go first). */
  lemma {:induction false} ForwardStep(e: set<char>, c: char, s: string)
    requires e <= SPECIAL && c in SPECIAL && c !in e
    requires c == '&' ==> e == {}
    ensures ReplaceAll(EncodeSome(e, s), [c], Entity(c)) == EncodeSome(e + {c}, s)
    decreases |s|
  {
    if s != [] {
      var piece := if s[0] in e then Entity(s[0]) else [s[0]];
      ForwardStep(e, c, s[1..]);
      if s[0] == c {
        assert EncodeSome(e, s) == [c] + EncodeSome(e, s[1..]);
        assert [c] <= EncodeSome(e, s);
        assert EncodeSome(e, s)[1..] == EncodeSome(e, s[1..]);
      } else {
        assert c !in piece;
        ReplaceAllSkips(piece, EncodeSome(e, s[1..]), [c], Entity(c));
      }
    }
  }

  /** One backward replace step: replacing c's entity by c removes c from the encoded set,
      as long as `&` itself is still encoded (so `&amp;` must go last). */
  lemma {:induction false} BackwardStep(e: set<char>, c: char, s: string)
    requires e <= SPECIAL && c in e && '&' in e
    ensures ReplaceAll(EncodeSome(e, s), Entity(c), [c]) == EncodeSome(e - {c}, s)
    decreases |s|
  {
    if s != [] {
      var rest := EncodeSome(e, s[1..]);
      BackwardStep(e, c, s[1..]);
      if s[0] == c {
        assert EncodeSome(e, s) == Entity(c) + rest;
        assert (Entity(c) + rest)[|Entity(c)|..] == rest;
      } else if s[0] in e {
        OtherEntityKept(c, s[0], rest);
      } else {
        assert s[0] != '&';
        ReplaceAllSkips([s[0]], rest, Entity(c), [c]);
      }
    }
  }

  /** An entity starts with `&`, has no other `&`, and its second character names the character. */
  lemma EntityShape(c: char)
    requires c in SPECIAL
    ensures |Entity(c)| >= 3 && Entity(c)[0] == '&' && '&' !in Entity(c)[1..]
    ensures Entity(c)[1] == if c == '&' then 'a' else if c == '<' then 'l' else 'g'
  {
  }

  /** The entity of another special character is not mistaken for c's entity. */
  lemma OtherEntityKept(c: char, d: char, rest: string)
    requires c in SPECIAL && d in SPECIAL && c != d
    ensures ReplaceAll(Entity(d) + rest, Entity(c), [c]) == Entity(d) + ReplaceAll(rest, Entity(c), [c])
  {
    var ent, pat := Entity(d), Entity(c);
    EntityShape(c);
    EntityShape(d);
    var s := ent + rest;
    assert !(pat <= s) by {
      assert s[1] == ent[1] != pat[1];
    }
    assert ReplaceAll(s, pat, [c]) == [s[0]] + ReplaceAll(s[1..], pat, [c]);
    assert s[1..] == ent[1..] + rest;
    ReplaceAllSkips(ent[1..], rest, pat, [c]);
    assert [s[0]] + ent[1..] == ent;
  }

  lemma EscapeSteps(t: string)
    ensures ReplaceAll(ReplaceAll(ReplaceAll(t, "&", "&amp;"), "<", "&lt;"), ">", "&gt;")
         == EncodeSome(SPECIAL, t)
  {
    EncodeNone(t);
    ForwardStep({}, '&', t);
    ForwardStep({'&'}, '<', t);
    ForwardStep({'&', '<'}, '>', t);
    assert {} + {'&'} == {'&'};
    assert {'&'} + {'<'} == {'&', '<'};
    assert {'&', '<'} + {'>'} == SPECIAL;
  }

  lemma {:induction false} EncodedHasNoAngle(t: string)
    ensures '<' !in EncodeSome(SPECIAL, t) && '>' !in EncodeSome(SPECIAL, t)
    decreases |t|
  {
    if t != [] { EncodedHasNoAngle(t[1..]); }
  }

  /** Unescaping what escape_html produced gives back its input. */
  lemma EscapeRoundTrip(s: string)
    ensures Unescape(EscapeHtml(Some(s))) == s
  {
    BackwardStep(SPECIAL, '<', s);
    assert SPECIAL - {'<'} == {'&', '>'};
    BackwardStep({'&', '>'}, '>', s);
    assert {'&', '>'} - {'>'} == {'&'};
    BackwardStep({'&'}, '&', s);
    assert {'&'} - {'&'} == {};
    EncodeNone(s);
  }

  /** A missing value and the empty string both escape to the empty string. */
  lemma EscapeEmpty()
    ensures EscapeHtml(None) == "" && EscapeHtml(Some("")) == ""
  {
  }

  /** escape_html is the identity on text with no special character. */
  lemma {:induction false} EscapePlain(s: string)
    requires forall i :: 0 <= i < |s| ==> s[i] !in SPECIAL
    ensures EscapeHtml(Some(s)) == s
  {
    PlainUnchanged(s);
  }

  lemma {:induction false} PlainUnchanged(s: string)
    requires forall i :: 0 <= i < |s| ==> s[i] !in SPECIAL
    ensures EncodeSome(SPECIAL, s) == s
    decreases |s|
  {
    if s != [] { PlainUnchanged(s[1..]); }
  }

  /** Escaping distributes over concatenation, so it works character by character:
      each special character becomes its entity and every other character is kept. */
  lemma {:induction false} EscapeConcat(a: string, b: string)
    ensures EncodeSome(SPECIAL, a + b) == EncodeSome(SPECIAL, a) + EncodeSome(SPECIAL, b)
    decreases |a|
  {
    if a != [] {
      assert (a + b)[0] == a[0] && (a + b)[1..] == a[1..] + b;
      EscapeConcat(a[1..], b);
    } else {
      assert a + b == b;
    }
  }

  /** Python's `c * n` for a one-character string: empty when n is zero or negative. */
  function Repeat(c: char, n: int): (r: string)
    ensures |r| == if n < 0 then 0 else n
    ensures forall i :: 0 <= i < |r| ==> r[i] == c
    decreases n
  {
    if n <= 0 then [] else [c] + Repeat(c, n - 1)
  }

  const FULL_STAR: char := '★'
  const EMPTY_STAR: char := '☆'

  /** The star rendering of a review at backend/application.py:229: `"★" * r + "☆" * (5 - r)`. */
  function Stars(r: int): string {
    Repeat(FULL_STAR, r) + Repeat(EMPTY_STAR, 5 - r)
  }

  /** For a rating r in 0..5 the star string is five characters: r full stars then 5 - r empty ones. */
  lemma StarsShape(r: int)
    requires 0 <= r <= 5
    ensures |Stars(r)| == 5
    ensures forall i :: 0 <= i < r ==> Stars(r)[i] == FULL_STAR
    ensures forall i :: r <= i < 5 ==> Stars(r)[i] == EMPTY_STAR
  {
  }

  /** Outside 0..5 Python's repetition rules give more than five characters. */
  lemma StarsLength(r: int)
    ensures |Stars(r)| == if r < 0 then 5 - r else if r > 5 then r else 5
  {
  }

  function CountChar(s: string, c: char): (n: nat)
    ensures n <= |s|
  {
    if s == [] then 0 else (if s[0] == c then 1 else 0) + CountChar(s[1..], c)
  }

  lemma {:induction false} CountConcat(a: string, b: string, c: char)
    ensures CountChar(a + b, c) == CountChar(a, c) + CountChar(b, c)
    decreases |a|
  {
    if a == [] {
      assert a + b == b;
    } else {
      assert (a + b)[0] == a[0] && (a + b)[1..] == a[1..] + b;
      CountConcat(a[1..], b, c);
    }
  }

  lemma {:induction false} CountRepeat(c: char, d: char, n: int)
    ensures CountChar(Repeat(c, n), d) == if c == d && n > 0 then n else 0
    decreases n
  {
    if n > 0 {
      assert Repeat(c, n)[1..] == Repeat(c, n - 1);
      CountRepeat(c, d, n - 1);
    }
  }

  /** The number of full stars gives the rating back, so the rendering loses nothing for r >= 0. */
  lemma StarsCount(r: int)
    requires r >= 0
    ensures CountChar(Stars(r), FULL_STAR) == r
    ensures CountChar(Stars(r), EMPTY_STAR) == if r <= 5 then 5 - r else 0
  {
    CountConcat(Repeat(FULL_STAR, r), Repeat(EMPTY_STAR, 5 - r), FULL_STAR);
    CountConcat(Repeat(FULL_STAR, r), Repeat(EMPTY_STAR, 5 - r), EMPTY_STAR);
    CountRepeat(FULL_STAR, FULL_STAR, r);
    CountRepeat(EMPTY_STAR, FULL_STAR, 5 - r);
    CountRepeat(FULL_STAR, EMPTY_STAR, r);
    CountRepeat(EMPTY_STAR, EMPTY_STAR, 5 - r);
  }
}
