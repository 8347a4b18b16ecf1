/**
 * What `Collection::load` (include/interface.hpp) reads from the lines of a
 * CNL file after its header: the clusters of member ids, one per line, and
 * the node ids in the order they are first met, which is what the load
 * feeds its `AggHash` with.
 *
 * A line's tokens are the `strtok` tokens under the member delimiters; a
 * first token ending in `>` is a cluster id and is not a member.
 */
module Loading {
  import opened Exceptions
  import opened Text
  import opened NodeIndex

  /** `mbdelim`: the delimiters of the members of a line. */
  const MemberDelims: set<char> := {' ', '\t', '\n'}

  /** The node-base filter: without a node base every node is accepted. */
  predicate Accepts(nodebase: Option<set<Id>>, n: Id)
  {
    nodebase.None? || n in nodebase.value
  }

  // ---------------------------------------------------------------------------
  // One line

  /**
   * The tokens the `strtok` cursor still yields from the remaining text
   * `s` are `ts`: the same list as `Tokens`, stated one call at a time.
   */
  predicate TokensAre(s: string, ts: seq<string>)
    decreases |s|
  {
    match StrTok(s, MemberDelims)
    case None => ts == []
    case Some((t, r)) => ts != [] && ts[0] == t && TokensAre(r, ts[1..])
  }

  /** The cursor yields exactly the tokens of the text. */
  lemma {:induction false} TokensAreTokens(s: string, ts: seq<string>)
    ensures TokensAre(s, ts) <==> ts == Tokens(s, MemberDelims)
    decreases |s|
  {
    var t := StrTok(s, MemberDelims);
    if t.Some? && ts != [] {
      TokensAreTokens(t.value.1, ts[1..]);
      assert ts == [ts[0]] + ts[1..];
    }
  }

  /**
   * The member tokens of a line, or `None` when the line yields no cluster,
   * as `load` reads them through the `strtok` cursor: a line without tokens
   * or whose first token opens with `#` (a comment) yields none; a first
   * token ending in `>` is a cluster id, and the tokens after it are the
   * members, none being an empty cluster that is skipped; otherwise all
   * tokens are members.
   */
  function ClusterTokens(line: string): Option<seq<string>>
  {
    match StrTok(line, MemberDelims)
    case None => None
    case Some((tok, rest)) => MemberTokens(tok, rest)
  }

  /** The member tokens of a line whose first token is `tok` and whose text after it is `rest`. */
  function MemberTokens(tok: string, rest: string): Option<seq<string>>
    requires tok != []
  {
    if tok[0] == '#' then None
    else if tok[|tok| - 1] == '>' then
      match StrTok(rest, MemberDelims)
      case None => None
      case Some((tok2, rest2)) => Some([tok2] + Tokens(rest2, MemberDelims))
    else Some([tok] + Tokens(rest, MemberDelims))
  }

  /** The member tokens of a line are a non-empty list of tokens. */
  lemma ClusterTokensWords(line: string)
    ensures var r := ClusterTokens(line);
      r.Some? ==> r.value != [] && forall k :: 0 <= k < |r.value| ==> IsToken(r.value[k], MemberDelims)
  {
    var t := StrTok(line, MemberDelims);
    if t.Some? {
      MemberTokensWords(t.value.0, t.value.1);
    }
  }

  lemma MemberTokensWords(tok: string, rest: string)
    requires IsToken(tok, MemberDelims)
    ensures var r := MemberTokens(tok, rest);
      r.Some? ==> r.value != [] && forall k :: 0 <= k < |r.value| ==> IsToken(r.value[k], MemberDelims)
  {
    if tok[0] != '#' {
      if tok[|tok| - 1] != '>' {
        TokenThenTokens(tok, rest);
      } else {
        var t2 := StrTok(rest, MemberDelims);
        if t2.Some? {
          TokenThenTokens(t2.value.0, t2.value.1);
        }
      }
    }
  }

  /** A token followed by the tokens of the remaining text are all tokens. */
  lemma TokenThenTokens(w: string, rest: string)
    requires |w| > 0 && forall k :: 0 <= k < |w| ==> w[k] !in MemberDelims
    ensures var ts := [w] + Tokens(rest, MemberDelims);
      forall k :: 0 <= k < |ts| ==> IsToken(ts[k], MemberDelims)
  {
    var ts := Tokens(rest, MemberDelims);
    assert forall k :: 0 < k <= |ts| ==> ([w] + ts)[k] == ts[k - 1];
  }

  /** The members the tokens name, in order, without the ids the node base rejects. */
  function Members(toks: seq<string>, nodebase: Option<set<Id>>): (ms: seq<Id>)
    ensures |ms| <= |toks|
  {
    if toks == [] then []
    else
      var id: Id := ParseId(toks[|toks| - 1]);
      Members(toks[..|toks| - 1], nodebase) + (if Accepts(nodebase, id) then [id] else [])
  }

  /** The clusters a line adds: one, possibly empty after the filter, or none. */
  function LineClusters(line: string, nodebase: Option<set<Id>>): seq<seq<Id>>
  {
    match ClusterTokens(line)
    case None => []
    case Some(ts) => [Members(ts, nodebase)]
  }

  /** The clusters the lines add, in order. */
  function FileClusters(lines: seq<string>, nodebase: Option<set<Id>>): seq<seq<Id>>
  {
    if lines == [] then []
    else FileClusters(lines[..|lines| - 1], nodebase) + LineClusters(lines[|lines| - 1], nodebase)
  }

  /** A line of delimiters only yields no cluster. */
  lemma BlankLineSkipped(line: string)
    requires forall k :: 0 <= k < |line| ==> line[k] in MemberDelims
    ensures ClusterTokens(line) == None
  {
  }

  /** A line whose first non-delimiter is `#` is a comment and yields no cluster. */
  lemma CommentSkipped(line: string)
    requires SkipDelims(line, MemberDelims) < |line| && line[SkipDelims(line, MemberDelims)] == '#'
    ensures ClusterTokens(line) == None
  {
    var t := StrTok(line, MemberDelims);
    assert t.Some?;
    assert t.value.0[0] == '#';
  }

  /** Every kept member is accepted by the node base, and the filter keeps each accepted token's id. */
  lemma {:induction false} MembersFiltered(toks: seq<string>, nodebase: Option<set<Id>>, n: Id)
    ensures Count(Members(toks, nodebase), n) == if Accepts(nodebase, n) then Count(Members(toks, None), n) else 0
    decreases |toks|
  {
    if toks != [] {
      MembersFiltered(toks[..|toks| - 1], nodebase, n);
      var id: Id := ParseId(toks[|toks| - 1]);
      var tail := if Accepts(nodebase, id) then [id] else [];
      CountConcat(Members(toks[..|toks| - 1], nodebase), tail, n);
      CountConcat(Members(toks[..|toks| - 1], None), [id], n);
    }
  }

  // ---------------------------------------------------------------------------
  // Writing a cluster as a line and reading it back

  /** Words separated by single spaces. */
  function Join(ws: seq<string>): string
    requires ws != []
  {
    if |ws| == 1 then ws[0] else ws[0] + " " + Join(ws[1..])
  }

  /** The decimal strings of the ids. */
  function Decimals(ids: seq<Id>): (ts: seq<string>)
    ensures |ts| == |ids| && forall k :: 0 <= k < |ids| ==> ts[k] == DecimalString(ids[k])
  {
    seq(|ids|, k requires 0 <= k < |ids| => DecimalString(ids[k]))
  }

  /** A cluster written as a line: its ids in decimal, separated by single spaces. */
  function FormatMembers(ids: seq<Id>): string
    requires ids != []
  {
    Join(Decimals(ids))
  }

  /** `strtok` on a word followed by a space and more text returns the word and that text. */
  lemma StrTokOfWordThen(w: string, rest: string)
    requires IsToken(w, MemberDelims)
    ensures StrTok(w + " " + rest, MemberDelims) == Some((w, rest))
  {
    var s := w + " " + rest;
    assert s[0] == w[0];
    assert SkipDelims(s, MemberDelims) == 0;
    assert s[0..] == w + (" " + rest);
    TokenLengthOfWord(w, " " + rest, MemberDelims);
    assert s[..|w|] == w && s[|w| + 1..] == rest;
  }

  /** `strtok` on a lone word returns the word and no text. */
  lemma StrTokOfWord(w: string)
    requires IsToken(w, MemberDelims)
    ensures StrTok(w, MemberDelims) == Some((w, []))
  {
    assert SkipDelims(w, MemberDelims) == 0;
    TokenLengthAll(w, MemberDelims);
    assert w[0..] == w && w[..|w|] == w;
  }

  /** The tokens of a word, a space and more text: the word, then the tokens of the text. */
  lemma TokensOfWordThen(w: string, rest: string)
    requires IsToken(w, MemberDelims)
    ensures Tokens(w + " " + rest, MemberDelims) == [w] + Tokens(rest, MemberDelims)
  {
    StrTokOfWordThen(w, rest);
  }

  /** The tokens of a lone word: the word. */
  lemma TokensOfWord(w: string)
    requires IsToken(w, MemberDelims)
    ensures Tokens(w, MemberDelims) == [w]
  {
    StrTokOfWord(w);
  }

  /** A decimal string is a token. */
  lemma DecimalIsToken(n: nat)
    ensures IsToken(DecimalString(n), MemberDelims)
  {
  }

  /** Tokens joined by spaces are read back as the same tokens. */
  lemma {:induction false} TokensOfJoin(ws: seq<string>)
    requires ws != [] && forall k :: 0 <= k < |ws| ==> IsToken(ws[k], MemberDelims)
    ensures Tokens(Join(ws), MemberDelims) == ws
    decreases |ws|
  {
    if |ws| == 1 {
      TokensOfWord(ws[0]);
    } else {
      TokensOfJoin(ws[1..]);
      TokensOfJoinStep(ws);
    }
  }

  lemma TokensOfJoinStep(ws: seq<string>)
    requires |ws| > 1 && IsToken(ws[0], MemberDelims)
    requires Tokens(Join(ws[1..]), MemberDelims) == ws[1..]
    ensures Tokens(Join(ws), MemberDelims) == ws
  {
    TokensOfWordThen(ws[0], Join(ws[1..]));
    assert ws == [ws[0]] + ws[1..];
  }

  /** The tokens of a formatted line are the ids' decimal strings. */
  lemma TokensOfFormat(ids: seq<Id>)
    requires ids != []
    ensures Tokens(FormatMembers(ids), MemberDelims) == Decimals(ids)
  {
    var ds := Decimals(ids);
    forall k | 0 <= k < |ds|
      ensures IsToken(ds[k], MemberDelims)
    {
      DecimalIsToken(ids[k]);
    }
    TokensOfJoin(ds);
  }

  /** Decimal ids read back without a node base are the ids. */
  lemma {:induction false} MembersOfDecimals(ids: seq<Id>)
    ensures Members(Decimals(ids), None) == ids
    decreases |ids|
  {
    if ids != [] {
      var init := ids[..|ids| - 1];
      assert Decimals(ids)[..|ids| - 1] == Decimals(init);
      MembersOfDecimals(init);
      ParseIdRoundTrip(ids[|ids| - 1]);
    }
  }

  /** A cluster written as a line of decimal ids is loaded back as itself. */
  lemma LoadFormatted(ids: seq<Id>)
    requires ids != []
    ensures LineClusters(FormatMembers(ids), None) == [ids]
  {
    TokensOfFormat(ids);
    var w := DecimalString(ids[0]);
    assert IsDigit(w[0]) && IsDigit(w[|w| - 1]);
    PlainLine(FormatMembers(ids));
    MembersOfDecimals(ids);
  }

  /** A line whose first token is neither a comment nor a cluster id: all its tokens are members. */
  lemma PlainLine(line: string)
    requires var ts := Tokens(line, MemberDelims); ts != [] && ts[0][0] != '#' && ts[0][|ts[0]| - 1] != '>'
    ensures ClusterTokens(line) == Some(Tokens(line, MemberDelims))
  {
    var ts := Tokens(line, MemberDelims);
    TokensAreTokens(line, ts);
    var t := StrTok(line, MemberDelims);
    TokensAreTokens(t.value.1, ts[1..]);
    assert ts == [ts[0]] + ts[1..];
  }

  /** A cluster id in front of the members, `<cid>> `, is dropped. */
  lemma LoadFormattedWithId(cid: Id, ids: seq<Id>)
    requires ids != []
    ensures LineClusters(DecimalString(cid) + "> " + FormatMembers(ids), None) == [ids]
  {
    var w := DecimalString(cid) + ">";
    var ds := Decimals(ids);
    IdWord(cid, Join(ds));
    FirstTokenThen(w, Join(ds));
    TokensOfFormat(ids);
    MembersAfterId(w, Join(ds));
    MembersOfDecimals(ids);
  }

  /** A cluster id written as `<id>>` starts with a digit, so it is no comment. */
  lemma IdWord(cid: Id, rest: string)
    ensures DecimalString(cid) + "> " + rest == (DecimalString(cid) + ">") + " " + rest
    ensures IsDigit((DecimalString(cid) + ">")[0])
  {
  }

  /** The member tokens of a line that starts with a word and a space. */
  lemma FirstTokenThen(w: string, rest: string)
    requires IsToken(w, MemberDelims)
    ensures ClusterTokens(w + " " + rest) == MemberTokens(w, rest)
  {
    StrTokOfWordThen(w, rest);
  }

  /** After a cluster id, the members are all the remaining tokens, if any. */
  lemma MembersAfterId(w: string, rest: string)
    requires w != [] && w[0] != '#' && w[|w| - 1] == '>'
    requires Tokens(rest, MemberDelims) != []
    ensures MemberTokens(w, rest) == Some(Tokens(rest, MemberDelims))
  {
    var ts := Tokens(rest, MemberDelims);
    TokensAreTokens(rest, ts);
    var t := StrTok(rest, MemberDelims);
    TokensAreTokens(t.value.1, ts[1..]);
    assert ts == [ts[0]] + ts[1..];
  }

  // ---------------------------------------------------------------------------
  // Members of a whole collection

  /** The members of all clusters, cluster after cluster. */
  function Flatten(cls: seq<seq<Id>>): seq<Id>
  {
    if cls == [] then [] else Flatten(cls[..|cls| - 1]) + cls[|cls| - 1]
  }

  /** The elements of `s` in the order of their first occurrence, each once. */
  function FirstSeen(s: seq<Id>): (r: seq<Id>)
    ensures forall x :: x in r <==> x in s
    ensures forall i, j :: 0 <= i < j < |r| ==> r[i] != r[j]
  {
    if s == [] then []
    else
      var init := FirstSeen(s[..|s| - 1]);
      assert forall x :: x in s <==> x in s[..|s| - 1] || x == s[|s| - 1] by {
        assert s == s[..|s| - 1] + [s[|s| - 1]];
      }
      if s[|s| - 1] in s[..|s| - 1] then init else init + [s[|s| - 1]]
  }

  /** One more element joins the first-seen order exactly when it is new. */
  lemma FirstSeenSnoc(s: seq<Id>, x: Id)
    ensures FirstSeen(s + [x]) == if x in s then FirstSeen(s) else FirstSeen(s) + [x]
  {
    assert (s + [x])[..|s|] == s;
  }

  /** A node's owner list in the index is as long as its number of memberships. */
  lemma {:induction false} OwnersCountMemberships(cls: seq<seq<Id>>, n: Id)
    ensures |Owners(Index(cls), n)| == Count(Flatten(cls), n)
    decreases |cls|
  {
    if cls != [] {
      var init := cls[..|cls| - 1];
      OwnersCountMemberships(init, n);
      AddMembersOwners(Index(init), cls[|cls| - 1], |cls| - 1, n);
      CountConcat(Flatten(init), cls[|cls| - 1], n);
    }
  }

  /**
   * While the members `ms` of the next cluster are indexed, a node has no
   * owner yet exactly when neither an earlier cluster nor `ms` holds it.
   */
  lemma NoOwnerYet(cls: seq<seq<Id>>, ms: seq<Id>, n: Id)
    ensures Owners(AddMembers(Index(cls), ms, |cls|), n) == [] <==> n !in Flatten(cls) + ms
  {
    AddMembersOwners(Index(cls), ms, |cls|, n);
    OwnersCountMemberships(cls, n);
    CountConcat(Flatten(cls), ms, n);
    CountPositive(Flatten(cls) + ms, n);
  }
}
