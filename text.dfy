/**
 * String operations the pipeline takes from C and GLib: searching for the
 * `$$` delimiter (`strstr`), splitting on it (`g_strsplit` with no token
 * limit), joining without a separator (`g_strjoinv(NULL, ...)`) and prefix
 * tests (`g_str_has_prefix`). Strings are sequences of characters.
 */
module Text {
  import opened Wrappers

  /** The delimiter that opens and closes a formula. */
  const Delim: string := "$$"

  /** A delimiter starts at position k of s. */
  predicate DelimAt(s: string, k: int)
  {
    0 <= k && k + 1 < |s| && s[k] == '$' && s[k + 1] == '$'
  }

  /** `strstr(s, "$$")`: the position of the leftmost delimiter, or None. */
  function FindDelim(s: string): (r: Option<nat>)
    ensures r.Some? ==> DelimAt(s, r.value)
    ensures r.Some? ==> forall j :: 0 <= j < r.value ==> !DelimAt(s, j)
    ensures r.None? ==> forall j :: !DelimAt(s, j)
  {
    if |s| < 2 then None
    else if s[0] == '$' && s[1] == '$' then Some(0)
    else
      match FindDelim(s[1..])
      case None =>
        assert forall j :: DelimAt(s, j) ==> j == 0 || DelimAt(s[1..], j - 1);
        None
      case Some(k) =>
        assert forall j :: 0 < j <= k ==> (DelimAt(s, j) <==> DelimAt(s[1..], j - 1));
        Some(k + 1)
  }

  /** The leftmost delimiter is the one at k when there is none before it. */
  lemma FindDelimIs(s: string, k: nat)
    requires DelimAt(s, k)
    requires forall j :: 0 <= j < k ==> !DelimAt(s, j)
    ensures FindDelim(s) == Some(k)
  {
  }

  /** `g_str_has_prefix(s, prefix)`. */
  predicate HasPrefix(s: string, prefix: string)
  {
    |prefix| <= |s| && s[..|prefix|] == prefix
  }

  /**
   * The pieces GLib's splitter produces for a non-empty string: the text up
   * to the leftmost delimiter, then the pieces of the rest after it.
   */
  function Pieces(s: string): (r: seq<string>)
    ensures |r| >= 1
    decreases |s|
  {
    match FindDelim(s)
    case None => [s]
    case Some(k) => [s[..k]] + Pieces(s[k + 2..])
  }

  /** A string whose leftmost delimiter is at k: the text before it, then the pieces after it. */
  lemma PiecesAt(s: string, k: nat)
    requires DelimAt(s, k)
    requires forall j :: 0 <= j < k ==> !DelimAt(s, j)
    ensures Pieces(s) == [s[..k]] + Pieces(s[k + 2..])
  {
    FindDelimIs(s, k);
  }

  /** `g_strsplit(s, "$$", -1)`: an empty string gives an empty vector. */
  function Split(s: string): seq<string>
  {
    if s == [] then [] else Pieces(s)
  }

  /** The number of delimiters the splitter consumes (leftmost, non-overlapping). */
  function DelimCount(s: string): nat
    decreases |s|
  {
    match FindDelim(s)
    case None => 0
    case Some(k) => 1 + DelimCount(s[k + 2..])
  }

  /** `g_strjoinv(NULL, v)`: the pieces concatenated with no separator. */
  function Join(v: seq<string>): string
  {
    if v == [] then [] else Join(v[..|v| - 1]) + v[|v| - 1]
  }

  /** Joining two vectors one after the other is joining each and concatenating. */
  lemma {:induction false} JoinConcat(a: seq<string>, b: seq<string>)
    ensures Join(a + b) == Join(a) + Join(b)
    decreases |b|
  {
    if b == [] {
      assert a + b == a;
    } else {
      var init := b[..|b| - 1];
      assert (a + b)[..|a + b| - 1] == a + init;
      JoinConcat(a, init);
    }
  }

  /** The first piece comes first: joining `[x] + v` puts x in front of v's join. */
  lemma JoinCons(x: string, v: seq<string>)
    ensures Join([x] + v) == x + Join(v)
  {
    JoinConcat([x], v);
    assert [x][..0] == [];
  }

  /** The pieces concatenated with `sep` between neighbours. */
  function JoinWith(v: seq<string>, sep: string): string
  {
    if |v| == 0 then []
    else if |v| == 1 then v[0]
    else v[0] + sep + JoinWith(v[1..], sep)
  }

  /** Joining a piece in front of a non-empty vector puts one separator between them. */
  lemma JoinWithCons(head: string, rest: seq<string>, sep: string)
    requires |rest| >= 1
    ensures JoinWith([head] + rest, sep) == head + sep + JoinWith(rest, sep)
  {
    assert ([head] + rest)[1..] == rest;
  }

  /** Cutting out a delimiter and gluing it back in is the identity. */
  lemma Reassemble(s: string, k: nat)
    requires DelimAt(s, k)
    ensures s[..k] + Delim + s[k + 2..] == s
  {
    assert s[k..k + 2] == Delim;
    assert s[..k] + s[k..k + 2] == s[..k + 2];
  }

  /** Putting the delimiters back between the pieces gives the original text. */
  lemma {:induction false} JoinPieces(s: string)
    ensures JoinWith(Pieces(s), Delim) == s
    decreases |s|
  {
    match FindDelim(s)
    case None =>
    case Some(k) =>
      JoinPieces(s[k + 2..]);
      JoinWithCons(s[..k], Pieces(s[k + 2..]), Delim);
      Reassemble(s, k);
  }

  /** Split followed by a join on the delimiter is the identity. */
  lemma SplitJoin(s: string)
    ensures JoinWith(Split(s), Delim) == s
  {
    if s != [] {
      JoinPieces(s);
    }
  }

  /** No character of s is a dollar sign. */
  predicate NoDollar(s: string)
  {
    forall j :: 0 <= j < |s| ==> s[j] != '$'
  }

  /**
   * The other round trip: pieces without a dollar sign, joined on the
   * delimiter, split back into the same pieces.
   */
  lemma {:induction false} PiecesOfJoin(ps: seq<string>)
    requires |ps| >= 1
    requires forall i :: 0 <= i < |ps| ==> NoDollar(ps[i])
    ensures Pieces(JoinWith(ps, Delim)) == ps
    decreases |ps|
  {
    var x := ps[0];
    if |ps| == 1 {
    } else {
      var rest := JoinWith(ps[1..], Delim);
      var s := JoinWith(ps, Delim);
      assert s == x + Delim + rest;
      assert s[|x|] == '$' && s[|x| + 1] == '$';
      assert forall j :: 0 <= j < |x| ==> !DelimAt(s, j) by {
        forall j | 0 <= j < |x|
          ensures !DelimAt(s, j)
        {
          assert s[j] == x[j];
        }
      }
      PiecesAt(s, |x|);
      assert s[..|x|] == x;
      assert s[|x| + 2..] == rest;
      PiecesOfJoin(ps[1..]);
      assert [x] + ps[1..] == ps;
    }
  }

  /** Every piece is free of delimiters. */
  lemma {:induction false} PiecesDelimFree(s: string)
    ensures forall i :: 0 <= i < |Pieces(s)| ==> FindDelim(Pieces(s)[i]).None?
    decreases |s|
  {
    match FindDelim(s)
    case None =>
    case Some(k) =>
      PiecesDelimFree(s[k + 2..]);
      var head := s[..k];
      assert forall j :: DelimAt(head, j) ==> DelimAt(s, j);
      assert FindDelim(head).None?;
      assert Pieces(s) == [head] + Pieces(s[k + 2..]);
  }

  /** Each delimiter consumed separates two pieces. */
  lemma {:induction false} PiecesCount(s: string)
    ensures |Pieces(s)| == DelimCount(s) + 1
    decreases |s|
  {
    match FindDelim(s)
    case None =>
    case Some(k) =>
      PiecesCount(s[k + 2..]);
  }

  /**
   * A text splits into two or more pieces exactly when it contains a
   * delimiter; so the first formula segment of a text with a delimiter
   * always exists.
   */
  lemma SplitCount(s: string)
    ensures s != [] ==> |Split(s)| == DelimCount(s) + 1
    ensures |Split(s)| >= 2 <==> FindDelim(s).Some?
  {
    if s != [] {
      PiecesCount(s);
    }
  }

  /**
   * Two or more dollar-free pieces joined on the delimiter: the text has a
   * delimiter and splits back into exactly those pieces.
   */
  lemma SplitOfJoin(ps: seq<string>)
    requires |ps| >= 2
    requires forall i :: 0 <= i < |ps| ==> NoDollar(ps[i])
    ensures FindDelim(JoinWith(ps, Delim)).Some?
    ensures Split(JoinWith(ps, Delim)) == ps
  {
    var s := JoinWith(ps, Delim);
    assert s == ps[0] + Delim + JoinWith(ps[1..], Delim);
    PiecesOfJoin(ps);
  }
}
