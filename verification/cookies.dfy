/**
 * Reading the session token from the `Cookie` request header
 * (`get_session_token`). The header is split at `;`; each piece that holds
 * a `=` is stripped and cut at its first `=`, and the value of the first
 * piece named `session` is the token.
 */
module Cookies {
  import opened Wrappers
  import opened Text

  const SESSION_PREFIX: string := "session="

  /** The token carried by one piece of the header, if the piece is the
      session cookie. */
  function PieceToken(piece: string): (r: Option<string>)
    ensures r.Some? <==> SESSION_PREFIX <= Strip(piece)
    ensures r.Some? ==> Strip(piece) == SESSION_PREFIX + r.value
  {
    if '=' !in piece then
      NoEqualsNoSession(piece);
      None
    else
      NotSpace('=');
      StripKeeps(piece, '=');
      NamedToken(Strip(piece))
  }

  /** A stripped piece holding `=`, cut at its first `=`: the value, when
      the name is `session`. */
  function NamedToken(p: string): (r: Option<string>)
    requires '=' in p
    ensures r.Some? <==> SESSION_PREFIX <= p
    ensures r.Some? ==> p == SESSION_PREFIX + r.value
  {
    var i := IndexOf(p, '=').value;
    SessionName(p, i);
    if p[..i] == "session" then
      assert p == SESSION_PREFIX + p[i + 1..];
      Some(p[i + 1..])
    else
      None
  }

  lemma NoEqualsNoSession(piece: string)
    requires '=' !in piece
    ensures !(SESSION_PREFIX <= Strip(piece))
  {
    var p := Strip(piece);
    if SESSION_PREFIX <= p {
      assert p[7] == '=';
      StripWithin(piece, '=');
    }
  }

  /** In a piece that starts with `session=`, the first `=` ends the name
      `session`. */
  lemma SessionName(p: string, i: nat)
    requires i < |p| && p[i] == '=' && '=' !in p[..i]
    ensures SESSION_PREFIX <= p ==> p[..i] == "session"
  {
    if SESSION_PREFIX <= p {
      assert p[7] == '=';
    }
  }

  /** The first value present in `xs`. */
  function FirstSome<T>(xs: seq<Option<T>>): (r: Option<T>)
    ensures r.None? <==> forall k :: 0 <= k < |xs| ==> xs[k].None?
    ensures r.Some? ==> exists k :: 0 <= k < |xs| && xs[k] == r && (forall j :: 0 <= j < k ==> xs[j].None?)
  {
    if xs == [] then None
    else if xs[0].Some? then xs[0]
    else
      var r := FirstSome(xs[1..]);
      assert forall k :: 0 <= k < |xs[1..]| ==> xs[1..][k] == xs[k + 1];
      r
  }

  /** The token of each piece, in order. */
  function Tokens(pieces: seq<string>): seq<Option<string>> {
    seq(|pieces|, k requires 0 <= k < |pieces| => PieceToken(pieces[k]))
  }

  /** The token found in a list of pieces belongs to the first session
      piece, and there is none exactly when no piece is a session piece. */
  lemma FirstToken(pieces: seq<string>)
    ensures FirstSome(Tokens(pieces)).None? <==>
      forall k :: 0 <= k < |pieces| ==> !(SESSION_PREFIX <= Strip(pieces[k]))
    ensures FirstSome(Tokens(pieces)).Some? ==> exists k ::
      && 0 <= k < |pieces|
      && Strip(pieces[k]) == SESSION_PREFIX + FirstSome(Tokens(pieces)).value
      && forall j :: 0 <= j < k ==> !(SESSION_PREFIX <= Strip(pieces[j]))
  {
    var ts := Tokens(pieces);
    assert forall k :: 0 <= k < |pieces| ==> ts[k] == PieceToken(pieces[k]);
    var r := FirstSome(ts);
    if r.Some? {
      var k :| 0 <= k < |ts| && ts[k] == r && (forall j :: 0 <= j < k ==> ts[j].None?);
      assert Strip(pieces[k]) == SESSION_PREFIX + r.value;
      forall j | 0 <= j < k ensures !(SESSION_PREFIX <= Strip(pieces[j])) {
        assert ts[j] == PieceToken(pieces[j]);
      }
    }
  }

  /** `get_session_token(handler)`: no header, or an empty one, gives no
      token; otherwise the first session piece decides. */
  function SessionToken(header: Option<string>): (r: Option<string>)
    ensures r.None? <==>
      || header.None? || header.value == ""
      || forall k :: 0 <= k < |Split(header.value, ';')| ==> !(SESSION_PREFIX <= Strip(Split(header.value, ';')[k]))
    ensures r.Some? ==> exists k ::
      && 0 <= k < |Split(header.value, ';')|
      && Strip(Split(header.value, ';')[k]) == SESSION_PREFIX + r.value
      && forall j :: 0 <= j < k ==> !(SESSION_PREFIX <= Strip(Split(header.value, ';')[j]))
  {
    if header.None? || header.value == "" then None
    else
      FirstToken(Split(header.value, ';'));
      FirstSome(Tokens(Split(header.value, ';')))
  }

  /** The cookie the server sets, `session=<token>`, is read back as the
      token, for every token without `;` and without trailing whitespace. */
  lemma SessionCookieRead(token: string)
    requires ';' !in token && (token == [] || !IsSpace(token[|token| - 1]))
    ensures SessionToken(Some(SESSION_PREFIX + token)) == Some(token)
  {
    var h := SESSION_PREFIX + token;
    assert ';' !in h by {
      assert forall i :: 8 <= i < |h| ==> h[i] == token[i - 8];
    }
    SingleCookie(h);
    SessionPieceRead(token);
  }

  /** A header without `;` is a single piece. */
  lemma SingleCookie(h: string)
    requires h != "" && ';' !in h
    ensures SessionToken(Some(h)) == PieceToken(h)
  {
    SplitNoSeparator(h, ';');
    var ts := Tokens(Split(h, ';'));
    assert ts == [PieceToken(h)];
    assert FirstSome(ts) == PieceToken(h);
  }

  lemma SessionPieceRead(token: string)
    requires token == [] || !IsSpace(token[|token| - 1])
    ensures PieceToken(SESSION_PREFIX + token) == Some(token)
  {
    var h := SESSION_PREFIX + token;
    NotSpace('s');
    NotSpace('=');
    assert h[|h| - 1] == '=' || h[|h| - 1] == token[|token| - 1];
    StripUnchanged(h);
  }

  /** Pieces are searched in order: the first part of a header wins when it
      holds a session piece, otherwise the rest is searched. */
  lemma SessionTokenConcat(a: string, b: string)
    requires a != "" && b != ""
    ensures SessionToken(Some(a + ";" + b))
         == if SessionToken(Some(a)).Some? then SessionToken(Some(a)) else SessionToken(Some(b))
  {
    SplitConcat(a, b, ';');
    var p, q := Split(a, ';'), Split(b, ';');
    TokensConcat(p, q);
    FirstSomeConcat(Tokens(p), Tokens(q));
  }

  /** The tokens of two lists of pieces are the tokens of each, in order. */
  lemma TokensConcat(p: seq<string>, q: seq<string>)
    ensures Tokens(p + q) == Tokens(p) + Tokens(q)
  {
    var joined, parts := Tokens(p + q), Tokens(p) + Tokens(q);
    forall k | 0 <= k < |joined| ensures joined[k] == parts[k] {
      if k < |p| {
        assert (p + q)[k] == p[k];
      } else {
        assert (p + q)[k] == q[k - |p|];
      }
    }
  }

  lemma {:induction false} FirstSomeConcat<T>(p: seq<Option<T>>, q: seq<Option<T>>)
    ensures FirstSome(p + q) == if FirstSome(p).Some? then FirstSome(p) else FirstSome(q)
  {
    if p == [] {
      assert p + q == q;
    } else {
      assert (p + q)[1..] == p[1..] + q;
      FirstSomeConcat(p[1..], q);
    }
  }
}
