/** projection/nft/nft.go: the table of live tokens and the materialised totals over it.  A total
    is kept for every combination of denom, drop, minter and owner, with "-" for "any". */
module NftTotals {
  import opened Wrappers

  // ---- identities

  datatype Token = Token(denomId: string, maybeDrop: Option<string>, minter: string, owner: string)

  type TokenId = (string, string)

  function NilIdentifier(maybeValue: Option<string>): string {
    if maybeValue.None? then "" else maybeValue.value
  }

  /** Which of the four fields an identity names. */
  datatype Mask = Mask(denom: bool, drop: bool, minter: bool, owner: bool)

  function Part(named: bool, value: string): string {
    if named then value else "-"
  }

  function Join(a: string, b: string, c: string, d: string): string {
    a + ":" + (b + ":" + (c + ":" + d))
  }

  function Identity(mask: Mask, token: Token): string {
    Join(Part(mask.denom, token.denomId), Part(mask.drop, NilIdentifier(token.maybeDrop)),
         Part(mask.minter, token.minter), Part(mask.owner, token.owner))
  }

  /** The sixteen identities of insertToken and deleteToken, in their order. */
  const ALL_MASKS: seq<Mask> := [
    Mask(false, false, false, false), Mask(true, false, false, false), Mask(false, true, false, false),
    Mask(false, false, true, false), Mask(false, false, false, true), Mask(true, true, false, false),
    Mask(true, false, true, false), Mask(true, false, false, true), Mask(false, true, true, false),
    Mask(false, true, false, true), Mask(false, false, true, true), Mask(true, true, true, false),
    Mask(true, true, false, true), Mask(true, false, true, true), Mask(false, true, true, true),
    Mask(true, true, true, true)]

  /** The eight identities that updateToken touches: those that name the owner. */
  const OWNER_MASKS: seq<Mask> := [
    Mask(false, false, false, true), Mask(true, false, false, true), Mask(false, true, false, true),
    Mask(false, false, true, true), Mask(true, true, false, true), Mask(true, false, true, true),
    Mask(false, true, true, true), Mask(true, true, true, true)]

  function Identities(masks: seq<Mask>, token: Token): seq<string> {
    seq(|masks|, i requires 0 <= i < |masks| => Identity(masks[i], token))
  }

  /** What the joined parts spell. */
  lemma JoinTexts(denom: string, drop: string, minter: string, owner: string)
    ensures Join("-", "-", "-", "-") == "-:-:-:-"
    ensures Join(denom, "-", "-", "-") == denom + ":-:-:-"
    ensures Join("-", drop, "-", "-") == "-:" + drop + ":-:-"
    ensures Join("-", "-", minter, "-") == "-:-:" + minter + ":-"
    ensures Join("-", "-", "-", owner) == "-:-:-:" + owner
    ensures Join(denom, drop, "-", "-") == denom + ":" + drop + ":-:-"
    ensures Join(denom, "-", minter, "-") == denom + ":-:" + minter + ":-"
    ensures Join(denom, "-", "-", owner) == denom + ":-:-:" + owner
    ensures Join("-", drop, minter, "-") == "-:" + drop + ":" + minter + ":-"
    ensures Join("-", drop, "-", owner) == "-:" + drop + ":-:" + owner
    ensures Join("-", "-", minter, owner) == "-:-:" + minter + ":" + owner
    ensures Join(denom, drop, minter, "-") == denom + ":" + drop + ":" + minter + ":-"
    ensures Join(denom, drop, "-", owner) == denom + ":" + drop + ":-:" + owner
    ensures Join(denom, "-", minter, owner) == denom + ":-:" + minter + ":" + owner
    ensures Join("-", drop, minter, owner) == "-:" + drop + ":" + minter + ":" + owner
    ensures Join(denom, drop, minter, owner) == denom + ":" + drop + ":" + minter + ":" + owner
  {
  }

  /** The sixteen keys of an insert or a burn, written out. */
  lemma AllIdentityTexts(token: Token)
    ensures var denom, drop, minter, owner := token.denomId, NilIdentifier(token.maybeDrop), token.minter, token.owner;
            Identities(ALL_MASKS, token) == [
              "-:-:-:-", denom + ":-:-:-", "-:" + drop + ":-:-",
              "-:-:" + minter + ":-", "-:-:-:" + owner, denom + ":" + drop + ":-:-",
              denom + ":-:" + minter + ":-", denom + ":-:-:" + owner, "-:" + drop + ":" + minter + ":-",
              "-:" + drop + ":-:" + owner, "-:-:" + minter + ":" + owner, denom + ":" + drop + ":" + minter + ":-",
              denom + ":" + drop + ":-:" + owner, denom + ":-:" + minter + ":" + owner, "-:" + drop + ":" + minter + ":" + owner,
              denom + ":" + drop + ":" + minter + ":" + owner]
  {
    JoinTexts(token.denomId, NilIdentifier(token.maybeDrop), token.minter, token.owner);
  }

  /** The eight keys of an update, written out. */
  lemma OwnerIdentityTexts(token: Token)
    ensures var denom, drop, minter, owner := token.denomId, NilIdentifier(token.maybeDrop), token.minter, token.owner;
            Identities(OWNER_MASKS, token) == [
              "-:-:-:" + owner, denom + ":-:-:" + owner, "-:" + drop + ":-:" + owner,
              "-:-:" + minter + ":" + owner, denom + ":" + drop + ":-:" + owner, denom + ":-:" + minter + ":" + owner,
              "-:" + drop + ":" + minter + ":" + owner, denom + ":" + drop + ":" + minter + ":" + owner]
  {
    JoinTexts(token.denomId, NilIdentifier(token.maybeDrop), token.minter, token.owner);
  }

  lemma MaskAt(m: Mask) returns (i: nat)
    ensures i < 16 && ALL_MASKS[i] == m
  {
    if !m.owner {
      i := if !m.minter then (if !m.drop then (if !m.denom then 0 else 1) else (if !m.denom then 2 else 5))
           else (if !m.drop then (if !m.denom then 3 else 6) else (if !m.denom then 8 else 11));
    } else {
      i := if !m.minter then (if !m.drop then (if !m.denom then 4 else 7) else (if !m.denom then 9 else 12))
           else (if !m.drop then (if !m.denom then 10 else 13) else (if !m.denom then 14 else 15));
    }
  }

  lemma OwnerMaskAt(m: Mask) returns (i: nat)
    requires m.owner
    ensures i < 8 && OWNER_MASKS[i] == m
  {
    i := if !m.minter then (if !m.drop then (if !m.denom then 0 else 1) else (if !m.denom then 2 else 4))
         else (if !m.drop then (if !m.denom then 3 else 5) else (if !m.denom then 6 else 7));
  }

  ghost predicate HasIdentity(token: Token, key: string) {
    exists m: Mask :: Identity(m, token) == key
  }

  ghost predicate HasOwnerIdentity(token: Token, key: string) {
    exists m: Mask :: m.owner && Identity(m, token) == key
  }

  ghost predicate HasOwnerFreeIdentity(token: Token, key: string) {
    exists m: Mask :: !m.owner && Identity(m, token) == key
  }

  lemma IdentitiesAreAll(token: Token, key: string)
    ensures key in Identities(ALL_MASKS, token) <==> HasIdentity(token, key)
  {
    if m: Mask :| Identity(m, token) == key {
      var i := MaskAt(m);
      assert Identities(ALL_MASKS, token)[i] == key;
    }
  }

  lemma OwnerIdentitiesAreAll(token: Token, key: string)
    ensures key in Identities(OWNER_MASKS, token) <==> HasOwnerIdentity(token, key)
  {
    if m: Mask :| m.owner && Identity(m, token) == key {
      var i := OwnerMaskAt(m);
      assert Identities(OWNER_MASKS, token)[i] == key;
    }
    if i :| 0 <= i < 8 && Identities(OWNER_MASKS, token)[i] == key {
      OwnerMasksNameOwner(i);
      assert Identity(OWNER_MASKS[i], token) == key;
    }
  }

  lemma OwnerMasksNameOwner(i: nat)
    requires i < 8
    ensures OWNER_MASKS[i].owner
  {
  }

  /** A token whose sixteen identities are all different. */
  ghost predicate Clean(token: Token) {
    forall m: Mask, n: Mask :: Identity(m, token) == Identity(n, token) ==> m == n
  }

  predicate Distinct(keys: seq<string>) {
    forall i, j :: 0 <= i < j < |keys| ==> keys[i] != keys[j]
  }

  lemma CleanIffDistinct(token: Token)
    ensures Clean(token) <==> Distinct(Identities(ALL_MASKS, token))
  {
    var keys := Identities(ALL_MASKS, token);
    if Clean(token) {
      forall i, j | 0 <= i < j < 16 ensures keys[i] != keys[j] {
        assert ALL_MASKS[i] != ALL_MASKS[j];
      }
    }
    if Distinct(keys) {
      forall m: Mask, n: Mask | Identity(m, token) == Identity(n, token) ensures m == n {
        var i := MaskAt(m);
        var j := MaskAt(n);
        assert keys[i] == keys[j];
      }
    }
  }

  // ---- the totals table

  datatype NftError = DuplicateToken | TokenNotFound | NoMessages | SameRowTwice

  function Total(totals: map<string, int>, key: string): int {
    if key in totals then totals[key] else 0
  }

  function Incremented(totals: map<string, int>, identities: seq<string>): map<string, int> {
    map key | key in totals.Keys + (set k | k in identities) ::
      if key in identities then Total(totals, key) + 1 else Total(totals, key)
  }

  function Decremented(totals: map<string, int>, identities: seq<string>): map<string, int> {
    map key | key in totals.Keys + (set k | k in identities) ::
      if key in identities then (if key in totals then totals[key] - 1 else 1) else Total(totals, key)
  }

  function IncrementedAll(totals: map<string, int>, identities: seq<string>): Result<map<string, int>, NftError> {
    if Distinct(identities) then Success(Incremented(totals, identities)) else Failure(SameRowTwice)
  }

  function DecrementedAll(totals: map<string, int>, identities: seq<string>): Result<map<string, int>, NftError> {
    if Distinct(identities) then Success(Decremented(totals, identities)) else Failure(SameRowTwice)
  }

  lemma UpsertOne(totals: map<string, int>, identities: seq<string>, key: string)
    requires key !in identities
    ensures var t := Incremented(totals, identities);
            Incremented(totals, identities + [key]) == t[key := Total(t, key) + 1]
    ensures var t := Decremented(totals, identities);
            Decremented(totals, identities + [key]) == t[key := if key in t then t[key] - 1 else 1]
  {
    UpsertKeys(identities, key);
  }

  lemma UpsertKeys(identities: seq<string>, key: string)
    ensures forall k :: k in identities + [key] <==> k in identities || k == key
  {
  }

  /** An upsert of total 1 per identity.  The statement fails when it names one row twice. */
  method IncrementAll(totals: map<string, int>, identities: seq<string>) returns (r: Result<map<string, int>, NftError>)
    ensures r == IncrementedAll(totals, identities)
    ensures r.Success? <==> forall i, j :: 0 <= i < j < |identities| ==> identities[i] != identities[j]
    ensures r.Success? ==>
              forall key :: Total(r.value, key) == Total(totals, key) + (if key in identities then 1 else 0)
    ensures r.Failure? ==> r.error == SameRowTwice
  {
    var updated := totals;
    assert updated == Incremented(totals, []);
    for i := 0 to |identities|
      invariant Distinct(identities[..i]) && updated == Incremented(totals, identities[..i])
    {
      var key := identities[i];
      if key in identities[..i] {
        return Failure(SameRowTwice);
      }
      assert identities[..i + 1] == identities[..i] + [key];
      UpsertOne(totals, identities[..i], key);
      updated := updated[key := Total(updated, key) + 1];
    }
    assert identities[..|identities|] == identities;
    return Success(updated);
  }

  /** The decrementing upsert: a missing row is created with total +1, not -1. */
  method DecrementAll(totals: map<string, int>, identities: seq<string>) returns (r: Result<map<string, int>, NftError>)
    ensures r == DecrementedAll(totals, identities)
    ensures r.Success? <==> forall i, j :: 0 <= i < j < |identities| ==> identities[i] != identities[j]
    ensures r.Success? ==>
              forall key :: Total(r.value, key) == if key !in identities then Total(totals, key)
                                                   else if key in totals then totals[key] - 1 else 1
    ensures r.Failure? ==> r.error == SameRowTwice
  {
    var updated := totals;
    assert updated == Decremented(totals, []);
    for i := 0 to |identities|
      invariant Distinct(identities[..i]) && updated == Decremented(totals, identities[..i])
    {
      var key := identities[i];
      if key in identities[..i] {
        return Failure(SameRowTwice);
      }
      assert identities[..i + 1] == identities[..i] + [key];
      UpsertOne(totals, identities[..i], key);
      updated := updated[key := if key in updated then updated[key] - 1 else 1];
    }
    assert identities[..|identities|] == identities;
    return Success(updated);
  }

  // ---- the recount

  ghost function Matching(tokens: map<TokenId, Token>, holds: Token -> bool): set<TokenId> {
    set id | id in tokens && holds(tokens[id])
  }

  ghost function Holding(key: string): Token -> bool {
    token => HasIdentity(token, key)
  }

  ghost function Holders(tokens: map<TokenId, Token>, key: string): set<TokenId> {
    Matching(tokens, Holding(key))
  }

  ghost predicate Recounted(tokens: map<TokenId, Token>, totals: map<string, int>) {
    forall key :: Total(totals, key) == |Holders(tokens, key)|
  }

  ghost function One(b: bool): int {
    if b then 1 else 0
  }

  ghost function Others(tokens: map<TokenId, Token>, id: TokenId, holds: Token -> bool): set<TokenId> {
    Matching(tokens, holds) - {id}
  }

  lemma MatchingSplit(tokens: map<TokenId, Token>, id: TokenId, holds: Token -> bool)
    ensures |Matching(tokens, holds)| == |Others(tokens, id, holds)| + One(id in tokens && holds(tokens[id]))
  {
    SizeWithout(Matching(tokens, holds), id);
  }

  lemma OthersAfterPut(tokens: map<TokenId, Token>, id: TokenId, token: Token, holds: Token -> bool)
    ensures Others(tokens[id := token], id, holds) == Others(tokens, id, holds)
  {
  }

  lemma MatchingAfterPut(tokens: map<TokenId, Token>, id: TokenId, token: Token, holds: Token -> bool)
    ensures |Matching(tokens[id := token], holds)|
            == |Matching(tokens, holds)| - One(id in tokens && holds(tokens[id])) + One(holds(token))
  {
    OthersAfterPut(tokens, id, token, holds);
    MatchingSplit(tokens, id, holds);
    MatchingSplit(tokens[id := token], id, holds);
  }

  lemma HoldersAfterPut(tokens: map<TokenId, Token>, id: TokenId, token: Token, key: string)
    ensures |Holders(tokens[id := token], key)|
            == |Holders(tokens, key)| - One(id in tokens && HasIdentity(tokens[id], key)) + One(HasIdentity(token, key))
  {
    MatchingAfterPut(tokens, id, token, Holding(key));
  }

  lemma SizeWithout(s: set<TokenId>, id: TokenId)
    ensures |s| == |s - {id}| + One(id in s)
  {
    if id in s {
      assert s == (s - {id}) + {id};
    } else {
      assert s == s - {id};
    }
  }

  lemma MatchingAfterDelete(tokens: map<TokenId, Token>, id: TokenId, holds: Token -> bool)
    requires id in tokens
    ensures |Matching(tokens - {id}, holds)| == |Matching(tokens, holds)| - One(holds(tokens[id]))
  {
    var before := Matching(tokens, holds);
    assert Matching(tokens - {id}, holds) == before - {id};
    SizeWithout(before, id);
  }

  lemma HoldersAfterDelete(tokens: map<TokenId, Token>, id: TokenId, key: string)
    requires id in tokens
    ensures |Holders(tokens - {id}, key)| == |Holders(tokens, key)| - One(HasIdentity(tokens[id], key))
  {
    MatchingAfterDelete(tokens, id, Holding(key));
  }

  lemma HolderCounts(tokens: map<TokenId, Token>, id: TokenId, key: string)
    requires id in tokens && HasIdentity(tokens[id], key)
    ensures |Holders(tokens, key)| >= 1
  {
    assert id in Holders(tokens, key);
  }

  /** On a clean token an identity either names the owner or it does not. */
  lemma SplitIdentity(token: Token, key: string)
    requires Clean(token)
    ensures One(HasIdentity(token, key)) == One(HasOwnerIdentity(token, key)) + One(HasOwnerFreeIdentity(token, key))
  {
    if m: Mask :| Identity(m, token) == key {
      assert m.owner || !m.owner;
    }
  }

  /** What updateToken does to the totals, whatever it does to the token. */
  ghost predicate OwnerMoved(totals: map<string, int>, totals': map<string, int>, prev: Token, token: Token) {
    forall key :: Total(totals', key)
                  == Total(totals, key) - One(HasOwnerIdentity(prev, key)) + One(HasOwnerIdentity(token, key))
  }

  /** The recount survives an update exactly when the update leaves the owner-free identities
      alone: moving the eight owner identities is enough for a new owner and for nothing else. */
  lemma UpdateKeepsRecountIff(tokens: map<TokenId, Token>, totals: map<string, int>, totals': map<string, int>,
                              id: TokenId, token: Token)
    requires id in tokens && Recounted(tokens, totals) && Clean(tokens[id]) && Clean(token)
    requires OwnerMoved(totals, totals', tokens[id], token)
    ensures Recounted(tokens[id := token], totals')
            <==> forall key :: HasOwnerFreeIdentity(tokens[id], key) <==> HasOwnerFreeIdentity(token, key)
  {
    forall key
      ensures Total(totals', key) - |Holders(tokens[id := token], key)|
              == One(HasOwnerFreeIdentity(tokens[id], key)) - One(HasOwnerFreeIdentity(token, key))
    {
      HoldersAfterPut(tokens, id, token, key);
      SplitIdentity(tokens[id], key);
      SplitIdentity(token, key);
    }
  }

  // ---- well-formed fields

  predicate ColonFree(token: Token) {
    ':' !in token.denomId && ':' !in NilIdentifier(token.maybeDrop) && ':' !in token.minter && ':' !in token.owner
  }

  predicate NoDash(token: Token) {
    token.denomId != "-" && NilIdentifier(token.maybeDrop) != "-" && token.minter != "-" && token.owner != "-"
  }

  function FirstColon(s: string): nat {
    if s == [] || s[0] == ':' then 0 else 1 + FirstColon(s[1..])
  }

  lemma {:induction false} FirstColonAfter(a: string, b: string)
    requires ':' !in a
    ensures FirstColon(a + ":" + b) == |a|
  {
    if a != [] {
      assert (a + ":" + b)[1..] == a[1..] + ":" + b;
      FirstColonAfter(a[1..], b);
    }
  }

  lemma ColonSplit(a: string, b: string, c: string, d: string)
    requires ':' !in a && ':' !in c && a + ":" + b == c + ":" + d
    ensures a == c && b == d
  {
    var s, t := a + ":" + b, c + ":" + d;
    FirstColonAfter(a, b);
    FirstColonAfter(c, d);
    assert a == s[..|a|] && c == t[..|c|];
    assert b == s[|a| + 1..] && d == t[|c| + 1..];
  }

  lemma JoinInjective(a: string, b: string, c: string, d: string, a': string, b': string, c': string, d': string)
    requires ':' !in a && ':' !in b && ':' !in c && ':' !in a' && ':' !in b' && ':' !in c'
    requires Join(a, b, c, d) == Join(a', b', c', d')
    ensures a == a' && b == b' && c == c' && d == d'
  {
    ColonSplit(a, b + ":" + (c + ":" + d), a', b' + ":" + (c' + ":" + d'));
    ColonSplit(b, c + ":" + d, b', c' + ":" + d');
    ColonSplit(c, d, c', d');
  }

  /** Two identities of colon-free tokens are equal only field by field. */
  lemma IdentityParts(m: Mask, s: Token, n: Mask, t: Token)
    requires ColonFree(s) && ColonFree(t) && Identity(m, s) == Identity(n, t)
    ensures Part(m.denom, s.denomId) == Part(n.denom, t.denomId)
    ensures Part(m.drop, NilIdentifier(s.maybeDrop)) == Part(n.drop, NilIdentifier(t.maybeDrop))
    ensures Part(m.minter, s.minter) == Part(n.minter, t.minter)
    ensures Part(m.owner, s.owner) == Part(n.owner, t.owner)
  {
    JoinInjective(Part(m.denom, s.denomId), Part(m.drop, NilIdentifier(s.maybeDrop)), Part(m.minter, s.minter), Part(m.owner, s.owner),
                  Part(n.denom, t.denomId), Part(n.drop, NilIdentifier(t.maybeDrop)), Part(n.minter, t.minter), Part(n.owner, t.owner));
  }

  /** With colon-free fields the insert statement succeeds exactly when no field is "-". */
  lemma CleanIff(token: Token)
    requires ColonFree(token)
    ensures Clean(token) <==> NoDash(token)
  {
    if NoDash(token) {
      forall m: Mask, n: Mask | Identity(m, token) == Identity(n, token) ensures m == n {
        IdentityParts(m, token, n, token);
      }
    } else {
      var none := Mask(false, false, false, false);
      var one := if token.denomId == "-" then none.(denom := true)
                 else if NilIdentifier(token.maybeDrop) == "-" then none.(drop := true)
                 else if token.minter == "-" then none.(minter := true) else none.(owner := true);
      assert Identity(one, token) == Identity(none, token);
    }
  }

  /** A wildcard identity means what it says: among well-formed tokens its holders are those that
      agree with the pattern on every named field. */
  lemma IdentityMeansPattern(m: Mask, pattern: Token, token: Token)
    requires ColonFree(pattern) && ColonFree(token) && NoDash(pattern) && NoDash(token)
    ensures HasIdentity(token, Identity(m, pattern)) <==>
            && (m.denom ==> token.denomId == pattern.denomId)
            && (m.drop ==> NilIdentifier(token.maybeDrop) == NilIdentifier(pattern.maybeDrop))
            && (m.minter ==> token.minter == pattern.minter)
            && (m.owner ==> token.owner == pattern.owner)
  {
    if n: Mask :| Identity(n, token) == Identity(m, pattern) {
      IdentityParts(n, token, m, pattern);
    }
    if (m.denom ==> token.denomId == pattern.denomId)
       && (m.drop ==> NilIdentifier(token.maybeDrop) == NilIdentifier(pattern.maybeDrop))
       && (m.minter ==> token.minter == pattern.minter) && (m.owner ==> token.owner == pattern.owner) {
      assert Identity(m, token) == Identity(m, pattern);
    }
  }

  /** For well-formed tokens of the same denom and minter, the owner-free identities are the same
      exactly when the drop is: an edit that changes the drop is the one that breaks the totals. */
  lemma OwnerFreeIffSameDrop(prev: Token, token: Token)
    requires ColonFree(prev) && ColonFree(token) && NoDash(prev) && NoDash(token)
    requires prev.denomId == token.denomId && prev.minter == token.minter
    ensures (forall key :: HasOwnerFreeIdentity(prev, key) <==> HasOwnerFreeIdentity(token, key))
            <==> NilIdentifier(prev.maybeDrop) == NilIdentifier(token.maybeDrop)
  {
    if NilIdentifier(prev.maybeDrop) == NilIdentifier(token.maybeDrop) {
      SameOwnerFree(prev, token);
    } else {
      var m := Mask(false, true, false, false);
      var key := Identity(m, prev);
      assert HasOwnerFreeIdentity(prev, key);
      if n: Mask :| !n.owner && Identity(n, token) == key {
        IdentityParts(n, token, m, prev);
        assert false;
      }
    }
  }

  lemma SameOwnerFree(prev: Token, token: Token)
    requires prev.denomId == token.denomId && prev.minter == token.minter
    requires NilIdentifier(prev.maybeDrop) == NilIdentifier(token.maybeDrop)
    ensures forall key :: HasOwnerFreeIdentity(prev, key) <==> HasOwnerFreeIdentity(token, key)
  {
    forall m: Mask | !m.owner ensures Identity(m, prev) == Identity(m, token) {
    }
    forall key ensures HasOwnerFreeIdentity(prev, key) <==> HasOwnerFreeIdentity(token, key) {
      if m: Mask :| !m.owner && Identity(m, prev) == key { assert Identity(m, token) == key; }
      if m: Mask :| !m.owner && Identity(m, token) == key { assert Identity(m, prev) == key; }
    }
  }

  // ---- the projection

  datatype NftEvent =
    | Mint(denomId: string, tokenId: string, dataDrop: Option<string>, sender: string, recipient: string)
    | Edit(denomId: string, tokenId: string, dataDrop: Option<string>)
    | Transfer(denomId: string, tokenId: string, recipient: string)
    | Burn(denomId: string, tokenId: string)

  /** The row an event leaves behind, given the row it found. */
  function RowAfter(enableDrop: bool, prev: Token, event: NftEvent): Token {
    match event
    case Edit(_, _, dataDrop) => if enableDrop && dataDrop.Some? then prev.(maybeDrop := dataDrop) else prev
    case Transfer(_, _, recipient) => prev.(owner := recipient)
    case _ => prev
  }

  function Minted(enableDrop: bool, event: NftEvent): Token
    requires event.Mint?
  {
    Token(event.denomId, if enableDrop then event.dataDrop else None, event.sender, event.recipient)
  }

  function IdOf(event: NftEvent): TokenId {
    (event.denomId, event.tokenId)
  }

  // ---- what each event does to the tables

  datatype Tables = Tables(tokens: map<TokenId, Token>, totals: map<string, int>, messages: map<TokenId, nat>)

  const EMPTY_TABLES := Tables(map[], map[], map[])

  function Inserted(t: Tables, id: TokenId, token: Token): Result<Tables, NftError> {
    if id in t.tokens then Failure(DuplicateToken)
    else
      var totals :- IncrementedAll(t.totals, Identities(ALL_MASKS, token));
      Success(t.(tokens := t.tokens[id := token], totals := totals))
  }

  /** The update statement writes the drop and the owner; denom and minter stay. */
  function Updated(t: Tables, id: TokenId, prev: Token, token: Token): Result<Tables, NftError> {
    if id !in t.tokens then Failure(TokenNotFound)
    else
      var decremented :- DecrementedAll(t.totals, Identities(OWNER_MASKS, prev));
      var totals :- IncrementedAll(decremented, Identities(OWNER_MASKS, token));
      Success(t.(tokens := t.tokens[id := t.tokens[id].(maybeDrop := token.maybeDrop, owner := token.owner)], totals := totals))
  }

  function Deleted(t: Tables, id: TokenId, token: Token): Result<Tables, NftError> {
    if id !in t.tokens then Failure(TokenNotFound)
    else if id !in t.messages || t.messages[id] == 0 then Failure(NoMessages)
    else
      var totals :- DecrementedAll(t.totals, Identities(ALL_MASKS, token));
      Success(Tables(t.tokens - {id}, totals, t.messages - {id}))
  }

  function MessageInserted(t: Tables, id: TokenId): Tables {
    t.(messages := t.messages[id := (if id in t.messages then t.messages[id] else 0) + 1])
  }

  function TablesAfter(enableDrop: bool, t: Tables, event: NftEvent): Result<Tables, NftError> {
    var id := IdOf(event);
    if event.Mint? then
      var inserted :- Inserted(t, id, Minted(enableDrop, event));
      Success(MessageInserted(inserted, id))
    else if id !in t.tokens then Failure(TokenNotFound)
    else if event.Burn? then Deleted(t, id, t.tokens[id])
    else
      var updated :- Updated(t, id, t.tokens[id], RowAfter(enableDrop, t.tokens[id], event));
      Success(MessageInserted(updated, id))
  }

  function TablesAfterAll(enableDrop: bool, t: Tables, events: seq<NftEvent>): Result<Tables, NftError>
    decreases |events|
  {
    if events == [] then Success(t)
    else
      var next :- TablesAfter(enableDrop, t, events[0]);
      TablesAfterAll(enableDrop, next, events[1..])
  }

  /** What one event does to the rows, field by field: a mint makes a row of its sender and recipient, an
      edit changes at most the drop, a transfer the owner alone, a burn removes the row and its
      messages; no other row changes. */
  lemma EventEffect(enableDrop: bool, t: Tables, event: NftEvent)
    requires TablesAfter(enableDrop, t, event).Success?
    ensures var id, after := (event.denomId, event.tokenId), TablesAfter(enableDrop, t, event).value;
            && (forall other :: other != id ==> (other in after.tokens <==> other in t.tokens) && (other in after.messages <==> other in t.messages))
            && (forall other :: other != id && other in t.tokens ==> after.tokens[other] == t.tokens[other])
            && (forall other :: other != id && other in t.messages ==> after.messages[other] == t.messages[other])
            && (event.Mint? <==> id !in t.tokens)
            && (event.Burn? <==> id !in after.tokens)
            && (event.Burn? <==> id !in after.messages)
            && (!event.Burn? ==> after.messages[id] == (if id in t.messages then t.messages[id] else 0) + 1)
            && match event
               case Mint(denomId, _, dataDrop, sender, recipient) =>
                 && after.tokens[id].denomId == denomId && after.tokens[id].minter == sender && after.tokens[id].owner == recipient
                 && after.tokens[id].maybeDrop == (if enableDrop then dataDrop else None)
               case Edit(_, _, dataDrop) =>
                 && after.tokens[id].denomId == t.tokens[id].denomId && after.tokens[id].minter == t.tokens[id].minter
                 && after.tokens[id].owner == t.tokens[id].owner
                 && after.tokens[id].maybeDrop == (if enableDrop && dataDrop.Some? then dataDrop else t.tokens[id].maybeDrop)
               case Transfer(_, _, recipient) =>
                 && after.tokens[id].denomId == t.tokens[id].denomId && after.tokens[id].minter == t.tokens[id].minter
                 && after.tokens[id].maybeDrop == t.tokens[id].maybeDrop && after.tokens[id].owner == recipient
               case Burn(_, _) => true
  {
  }

  // ---- the tokens in terms of the events

  predicate About(event: NftEvent, id: TokenId) {
    (event.denomId, event.tokenId) == id
  }

  /** A token lives when it has been minted and not burnt since. */
  predicate Lives(log: seq<NftEvent>, id: TokenId) {
    if log == [] then false
    else
      var last := log[|log| - 1];
      if About(last, id) && last.Mint? then true
      else if About(last, id) && last.Burn? then false
      else Lives(log[..|log| - 1], id)
  }

  /** Whoever received the token last, by mint or transfer. */
  function LastRecipient(log: seq<NftEvent>, id: TokenId): string {
    if log == [] then ""
    else
      var last := log[|log| - 1];
      if About(last, id) && (last.Mint? || last.Transfer?) then last.recipient else LastRecipient(log[..|log| - 1], id)
  }

  function LastMinter(log: seq<NftEvent>, id: TokenId): string {
    if log == [] then ""
    else
      var last := log[|log| - 1];
      if About(last, id) && last.Mint? then last.sender else LastMinter(log[..|log| - 1], id)
  }

  lemma {:induction false} OneMoreEvent(enableDrop: bool, t: Tables, log: seq<NftEvent>, last: NftEvent)
    ensures TablesAfterAll(enableDrop, t, log + [last])
            == if TablesAfterAll(enableDrop, t, log).Failure? then TablesAfterAll(enableDrop, t, log)
               else TablesAfter(enableDrop, TablesAfterAll(enableDrop, t, log).value, last)
    decreases |log|
  {
    if log == [] {
      assert log + [last] == [last] && [last][1..] == [];
      if TablesAfter(enableDrop, t, last).Success? {
        assert TablesAfterAll(enableDrop, TablesAfter(enableDrop, t, last).value, [last][1..]).Success?;
      }
    } else {
      assert (log + [last])[0] == log[0] && (log + [last])[1..] == log[1..] + [last];
      if TablesAfter(enableDrop, t, log[0]).Success? {
        OneMoreEvent(enableDrop, TablesAfter(enableDrop, t, log[0]).value, log[1..], last);
      }
    }
  }

  /** After any run from the empty tables the rows are the living tokens, each of its denom, with the
      sender of its last mint as minter and its last recipient as owner. */
  lemma {:induction false} OwnersAreLastRecipients(enableDrop: bool, log: seq<NftEvent>, id: TokenId)
    requires TablesAfterAll(enableDrop, EMPTY_TABLES, log).Success?
    ensures var tokens := TablesAfterAll(enableDrop, EMPTY_TABLES, log).value.tokens;
            && (id in tokens <==> Lives(log, id))
            && (id in tokens ==>
                  && tokens[id].owner == LastRecipient(log, id) && tokens[id].minter == LastMinter(log, id)
                  && tokens[id].denomId == id.0)
    decreases |log|
  {
    if log != [] {
      var front, last := log[..|log| - 1], log[|log| - 1];
      assert log == front + [last];
      OneMoreEvent(enableDrop, EMPTY_TABLES, front, last);
      var t := TablesAfterAll(enableDrop, EMPTY_TABLES, front).value;
      OwnersAreLastRecipients(enableDrop, front, id);
      EventEffect(enableDrop, t, last);
    }
  }

  class Nft {
    const enableDrop: bool
    var tokens: map<TokenId, Token>
    var totals: map<string, int>
    var messages: map<TokenId, nat>

    function Snapshot(): Tables
      reads this
    {
      Tables(tokens, totals, messages)
    }

    constructor (enableDrop: bool)
      ensures Snapshot() == EMPTY_TABLES && this.enableDrop == enableDrop
    {
      this.enableDrop := enableDrop;
      tokens, totals, messages := map[], map[], map[];
    }

    /** A step either makes the specified tables or reports the specified error. */
    static predicate Did(spec: Result<Tables, NftError>, r: Result<(), NftError>, after: Tables) {
      match spec
      case Success(t) => r.Success? && after == t
      case Failure(error) => r == Failure(error)
    }

    method InsertMessage(id: TokenId)
      modifies this`messages
      ensures Snapshot() == MessageInserted(old(Snapshot()), id)
    {
      messages := messages[id := (if id in messages then messages[id] else 0) + 1];
    }

    method InsertToken(id: TokenId, token: Token) returns (r: Result<(), NftError>)
      modifies this`tokens, this`totals
      ensures Did(Inserted(old(Snapshot()), id, token), r, Snapshot())
    {
      if id in tokens {
        return Failure(DuplicateToken);
      }
      tokens := tokens[id := token];
      totals :- IncrementAll(totals, Identities(ALL_MASKS, token));
      return Success(());
    }

    method UpdateToken(id: TokenId, prev: Token, token: Token) returns (r: Result<(), NftError>)
      modifies this`tokens, this`totals
      ensures Did(Updated(old(Snapshot()), id, prev, token), r, Snapshot())
    {
      if id !in tokens {
        return Failure(TokenNotFound);
      }
      tokens := tokens[id := tokens[id].(maybeDrop := token.maybeDrop, owner := token.owner)];
      totals :- DecrementAll(totals, Identities(OWNER_MASKS, prev));
      totals :- IncrementAll(totals, Identities(OWNER_MASKS, token));
      return Success(());
    }

    method DeleteToken(id: TokenId, token: Token) returns (r: Result<(), NftError>)
      modifies this
      ensures Did(Deleted(old(Snapshot()), id, token), r, Snapshot())
    {
      if id !in tokens {
        return Failure(TokenNotFound);
      }
      tokens := tokens - {id};
      if id !in messages || messages[id] == 0 {
        return Failure(NoMessages);
      }
      messages := messages - {id};
      totals :- DecrementAll(totals, Identities(ALL_MASKS, token));
      return Success(());
    }

    /** One branch of HandleEvents, in whatever state the tables are. */
    method HandleEvent(event: NftEvent) returns (r: Result<(), NftError>)
      modifies this
      ensures Did(TablesAfter(enableDrop, old(Snapshot()), event), r, Snapshot())
    {
      var id := IdOf(event);
      if event.Mint? {
        var _ :- InsertToken(id, Minted(enableDrop, event));
        InsertMessage(id);
      } else if id !in tokens {
        return Failure(TokenNotFound);
      } else if event.Burn? {
        var _ :- DeleteToken(id, tokens[id]);
      } else {
        var _ :- UpdateToken(id, tokens[id], RowAfter(enableDrop, tokens[id], event));
        InsertMessage(id);
      }
      return Success(());
    }

    /** All events of a block in one transaction: on an error nothing of it remains. */
    method HandleEvents(events: seq<NftEvent>) returns (r: Result<(), NftError>)
      modifies this
      ensures match TablesAfterAll(enableDrop, old(Snapshot()), events)
              case Success(t) => r.Success? && Snapshot() == t
              case Failure(error) => r == Failure(error) && Snapshot() == old(Snapshot())
    {
      var committedTokens, committedTotals, committedMessages := tokens, totals, messages;
      assert events[0..] == events;
      for i := 0 to |events|
        invariant TablesAfterAll(enableDrop, Snapshot(), events[i..]) == TablesAfterAll(enableDrop, old(Snapshot()), events)
      {
        assert events[i..][1..] == events[i + 1..];
        r := HandleEvent(events[i]);
        if r.Failure? {
          tokens, totals, messages := committedTokens, committedTotals, committedMessages;
          return;
        }
      }
      return Success(());
    }
  }

  // ---- the totals are a recount

  /** Every total is the number of live tokens with that identity, and the tokens are ones whose
      identities do not coincide. */
  ghost predicate Sound(t: Tables) {
    && Recounted(t.tokens, t.totals)
    && (forall id :: id in t.tokens ==> Clean(t.tokens[id]))
    && LiveHaveMessages(t)
  }

  predicate LiveHaveMessages(t: Tables) {
    forall id :: id in t.tokens ==> id in t.messages && t.messages[id] > 0
  }

  lemma DistinctOwnerIdentities(token: Token)
    requires Clean(token)
    ensures Distinct(Identities(OWNER_MASKS, token))
  {
    forall i, j | 0 <= i < j < 8 ensures Identities(OWNER_MASKS, token)[i] != Identities(OWNER_MASKS, token)[j] {
      assert OWNER_MASKS[i] != OWNER_MASKS[j];
    }
  }

  /** An insert keeps the recount and fails exactly on an existing token or coinciding identities. */
  lemma InsertKeepsRecount(t: Tables, id: TokenId, token: Token)
    requires Recounted(t.tokens, t.totals)
    ensures Inserted(t, id, token).Success? <==> id !in t.tokens && Clean(token)
    ensures Inserted(t, id, token).Success? ==>
              Recounted(Inserted(t, id, token).value.tokens, Inserted(t, id, token).value.totals)
  {
    CleanIffDistinct(token);
    if Inserted(t, id, token).Success? {
      var totals := Inserted(t, id, token).value.totals;
      forall key ensures Total(totals, key) == |Holders(t.tokens[id := token], key)| {
        IdentitiesAreAll(token, key);
        HoldersAfterPut(t.tokens, id, token, key);
        assert Total(t.totals, key) == |Holders(t.tokens, key)|;
      }
    }
  }

  /** An update moves the eight owner totals, whatever else changed. */
  lemma UpdateMovesOwner(t: Tables, id: TokenId, token: Token)
    requires Sound(t) && id in t.tokens
    ensures Clean(token) ==> Updated(t, id, t.tokens[id], token).Success?
    ensures Updated(t, id, t.tokens[id], token).Success? ==>
              OwnerMoved(t.totals, Updated(t, id, t.tokens[id], token).value.totals, t.tokens[id], token)
  {
    var prev := t.tokens[id];
    DistinctOwnerIdentities(prev);
    if Clean(token) { DistinctOwnerIdentities(token); }
    if Updated(t, id, prev, token).Success? {
      var totals := Updated(t, id, prev, token).value.totals;
      forall key
        ensures Total(totals, key)
                == Total(t.totals, key) - One(HasOwnerIdentity(prev, key)) + One(HasOwnerIdentity(token, key))
      {
        OwnerIdentitiesAreAll(prev, key);
        OwnerIdentitiesAreAll(token, key);
        if HasOwnerIdentity(prev, key) {
          HolderCounts(t.tokens, id, key);
          assert Total(t.totals, key) == |Holders(t.tokens, key)|;
        }
      }
    }
  }

  /** A burn keeps the recount and cannot fail on a live token. */
  lemma DeleteKeepsRecount(t: Tables, id: TokenId)
    requires Sound(t) && id in t.tokens
    ensures Deleted(t, id, t.tokens[id]).Success?
    ensures Recounted(t.tokens - {id}, Deleted(t, id, t.tokens[id]).value.totals)
  {
    var token := t.tokens[id];
    CleanIffDistinct(token);
    var totals := Deleted(t, id, token).value.totals;
    forall key ensures Total(totals, key) == |Holders(t.tokens - {id}, key)| {
      IdentitiesAreAll(token, key);
      HoldersAfterDelete(t.tokens, id, key);
      assert Total(t.totals, key) == |Holders(t.tokens, key)|;
      if HasIdentity(token, key) { HolderCounts(t.tokens, id, key); }
    }
  }

  /** The events after which the totals still agree: an edit keeps the drop, and an edit or a
      transfer does not produce a token whose identities coincide. */
  ghost predicate Stable(enableDrop: bool, t: Tables, event: NftEvent) {
    (event.Edit? || event.Transfer?) && IdOf(event) in t.tokens ==>
      var prev := t.tokens[IdOf(event)];
      var token := RowAfter(enableDrop, prev, event);
      Clean(token) && NilIdentifier(token.maybeDrop) == NilIdentifier(prev.maybeDrop)
  }

  /** A stable event never fails on a live token, and keeps every total equal to the recount. */
  lemma StableKeepsSound(enableDrop: bool, t: Tables, event: NftEvent)
    requires Sound(t) && Stable(enableDrop, t, event)
    ensures TablesAfter(enableDrop, t, event).Success? ==> Sound(TablesAfter(enableDrop, t, event).value)
    ensures !event.Mint? && IdOf(event) in t.tokens ==> TablesAfter(enableDrop, t, event).Success?
  {
    var id := IdOf(event);
    if event.Mint? {
      InsertKeepsRecount(t, id, Minted(enableDrop, event));
    } else if id in t.tokens {
      if event.Burn? {
        DeleteKeepsRecount(t, id);
      } else {
        UpdateKeepsSound(t, id, RowAfter(enableDrop, t.tokens[id], event));
      }
    }
  }

  /** When a stable event succeeds and with which error it fails: a mint needs a new token whose keys
      do not coincide, every other event a live one. */
  lemma StableOutcome(enableDrop: bool, t: Tables, event: NftEvent)
    requires Sound(t) && Stable(enableDrop, t, event)
    ensures var id, r := (event.denomId, event.tokenId), TablesAfter(enableDrop, t, event);
            if event.Mint? then
              var row := Token(event.denomId, if enableDrop then event.dataDrop else None, event.sender, event.recipient);
              && (r.Success? <==> id !in t.tokens && Clean(row))
              && (r.Failure? ==> r.error == if id in t.tokens then DuplicateToken else SameRowTwice)
            else
              && (r.Success? <==> id in t.tokens)
              && (r.Failure? ==> r.error == TokenNotFound)
  {
    StableKeepsSound(enableDrop, t, event);
    if event.Mint? {
      InsertKeepsRecount(t, IdOf(event), Minted(enableDrop, event));
    }
  }

  lemma UpdateKeepsSound(t: Tables, id: TokenId, token: Token)
    requires Sound(t) && id in t.tokens && Clean(token)
    requires t.tokens[id].denomId == token.denomId && t.tokens[id].minter == token.minter
    requires NilIdentifier(t.tokens[id].maybeDrop) == NilIdentifier(token.maybeDrop)
    ensures Updated(t, id, t.tokens[id], token).Success?
    ensures Sound(MessageInserted(Updated(t, id, t.tokens[id], token).value, id))
  {
    var prev := t.tokens[id];
    UpdateMovesOwner(t, id, token);
    SameOwnerFree(prev, token);
    UpdateKeepsRecountIff(t.tokens, t.totals, Updated(t, id, prev, token).value.totals, id, token);
  }

  /** On ordinary tokens an edit keeps the totals right if and only if it keeps the drop. */
  lemma EditKeepsRecountIff(enableDrop: bool, t: Tables, event: NftEvent)
    requires Sound(t) && event.Edit? && IdOf(event) in t.tokens
    requires Ordinary(t.tokens[IdOf(event)]) && Ordinary(RowAfter(enableDrop, t.tokens[IdOf(event)], event))
    ensures TablesAfter(enableDrop, t, event).Success?
    ensures Recounted(TablesAfter(enableDrop, t, event).value.tokens, TablesAfter(enableDrop, t, event).value.totals)
            <==> NilIdentifier(RowAfter(enableDrop, t.tokens[IdOf(event)], event).maybeDrop)
                 == NilIdentifier(t.tokens[IdOf(event)].maybeDrop)
  {
    var id := IdOf(event);
    var prev, token := t.tokens[id], RowAfter(enableDrop, t.tokens[id], event);
    CleanIff(token);
    UpdateMovesOwner(t, id, token);
    OwnerFreeIffSameDrop(prev, token);
    UpdateKeepsRecountIff(t.tokens, t.totals, Updated(t, id, prev, token).value.totals, id, token);
  }

  lemma TwoEvents(enableDrop: bool, t: Tables, first: NftEvent, second: NftEvent)
    requires TablesAfter(enableDrop, t, first).Success?
    ensures TablesAfterAll(enableDrop, t, [first] + [second]) == TablesAfter(enableDrop, TablesAfter(enableDrop, t, first).value, second)
  {
    assert ([first] + [second])[1..] == [second] && [second][1..] == [];
    var next := TablesAfter(enableDrop, t, first).value;
    var last := TablesAfter(enableDrop, next, second);
    if last.Success? { assert TablesAfterAll(enableDrop, last.value, [second][1..]) == last; }
    assert TablesAfterAll(enableDrop, next, [second]) == last;
  }

  /** The two events succeed on the empty tables and leave some total that is not the recount. */
  ghost predicate BreaksRecount(mint: NftEvent, edit: NftEvent) {
    var r := TablesAfterAll(true, EMPTY_TABLES, [mint] + [edit]);
    r.Success? && !Recounted(r.value.tokens, r.value.totals)
  }

  /** Minting an ordinary token and then changing its drop leaves wrong totals. */
  lemma MintThenEditDrop(mint: NftEvent, edit: NftEvent)
    requires mint.Mint? && edit.Edit? && IdOf(mint) == IdOf(edit)
    requires Ordinary(Minted(true, mint)) && Ordinary(RowAfter(true, Minted(true, mint), edit))
    requires NilIdentifier(RowAfter(true, Minted(true, mint), edit).maybeDrop) != NilIdentifier(Minted(true, mint).maybeDrop)
    ensures BreaksRecount(mint, edit)
  {
    EmptyIsSound();
    CleanIff(Minted(true, mint));
    InsertKeepsRecount(EMPTY_TABLES, IdOf(mint), Minted(true, mint));
    StableKeepsSound(true, EMPTY_TABLES, mint);
    EditKeepsRecountIff(true, TablesAfter(true, EMPTY_TABLES, mint).value, edit);
    TwoEvents(true, EMPTY_TABLES, mint, edit);
  }

  /** For instance: afterwards no token has drop a, yet the total of "-:a:-:-" is still 1. */
  lemma DropEditBreaksRecount()
    ensures BreaksRecount(Mint("d", "1", Some("a"), "m", "o"), Edit("d", "1", Some("b")))
  {
    MintThenEditDrop(Mint("d", "1", Some("a"), "m", "o"), Edit("d", "1", Some("b")));
  }

  ghost predicate StableAll(enableDrop: bool, t: Tables, events: seq<NftEvent>)
    decreases |events|
  {
    events == [] ||
    (Stable(enableDrop, t, events[0]) &&
     (TablesAfter(enableDrop, t, events[0]).Success? ==>
        StableAll(enableDrop, TablesAfter(enableDrop, t, events[0]).value, events[1..])))
  }

  /** After any sequence of mints, edits, transfers and burns that are stable, every total is the
      recount. */
  lemma {:induction false} StableRunRecounts(enableDrop: bool, t: Tables, events: seq<NftEvent>)
    requires Sound(t) && StableAll(enableDrop, t, events) && TablesAfterAll(enableDrop, t, events).Success?
    ensures Sound(TablesAfterAll(enableDrop, t, events).value)
    decreases |events|
  {
    if events != [] {
      StableKeepsSound(enableDrop, t, events[0]);
      StableRunRecounts(enableDrop, TablesAfter(enableDrop, t, events[0]).value, events[1..]);
    }
  }

  lemma EmptyIsSound()
    ensures Sound(EMPTY_TABLES)
  {
    forall key ensures Holders(map[], key) == {} {
    }
  }

  // ---- without drops

  predicate Ordinary(token: Token) {
    ColonFree(token) && NoDash(token)
  }

  predicate OrdinaryField(field: string) {
    ':' !in field && field != "-"
  }

  /** Denoms and addresses as the chain allows them: no colon, and not just a dash. */
  predicate OrdinaryEvent(event: NftEvent) {
    && (event.Mint? ==> OrdinaryField(event.denomId) && OrdinaryField(event.sender) && OrdinaryField(event.recipient))
    && (event.Transfer? ==> OrdinaryField(event.recipient))
  }

  predicate AllOrdinary(t: Tables) {
    forall id :: id in t.tokens ==> Ordinary(t.tokens[id])
  }

  lemma OrdinaryStep(t: Tables, event: NftEvent)
    requires AllOrdinary(t) && OrdinaryEvent(event)
    ensures Stable(false, t, event)
    ensures TablesAfter(false, t, event).Success? ==> AllOrdinary(TablesAfter(false, t, event).value)
  {
    if (event.Edit? || event.Transfer?) && IdOf(event) in t.tokens {
      CleanIff(RowAfter(false, t.tokens[IdOf(event)], event));
    }
  }

  /** With drops disabled and ordinary fields every sequence of events is stable. */
  lemma {:induction false} StableWithoutDrops(t: Tables, events: seq<NftEvent>)
    requires AllOrdinary(t) && forall i :: 0 <= i < |events| ==> OrdinaryEvent(events[i])
    ensures StableAll(false, t, events)
    decreases |events|
  {
    if events != [] {
      OrdinaryStep(t, events[0]);
      if TablesAfter(false, t, events[0]).Success? {
        StableWithoutDrops(TablesAfter(false, t, events[0]).value, events[1..]);
      }
    }
  }

  /** So from the empty tables on, with drops disabled, the totals are always the recount. */
  lemma {:induction false} RecountWithoutDrops(events: seq<NftEvent>)
    requires forall i :: 0 <= i < |events| ==> OrdinaryEvent(events[i])
    requires TablesAfterAll(false, EMPTY_TABLES, events).Success?
    ensures var t := TablesAfterAll(false, EMPTY_TABLES, events).value;
            forall key :: Total(t.totals, key) == |Holders(t.tokens, key)|
  {
    EmptyIsSound();
    StableWithoutDrops(EMPTY_TABLES, events);
    StableRunRecounts(false, EMPTY_TABLES, events);
  }

  /** In every run, drop edits included, a live token has messages: the row count that a burn
      checks is never zero. */
  lemma {:induction false} BurnFindsMessages(enableDrop: bool, t: Tables, events: seq<NftEvent>)
    requires LiveHaveMessages(t)
    ensures TablesAfterAll(enableDrop, t, events) != Failure(NoMessages)
    decreases |events|
  {
    if events != [] && TablesAfter(enableDrop, t, events[0]).Success? {
      BurnFindsMessages(enableDrop, TablesAfter(enableDrop, t, events[0]).value, events[1..]);
    }
  }
}
