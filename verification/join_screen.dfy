/**
 * The join-a-group screen: cleaning what the user types into the invite-code
 * field (`handleCodeChange`), validating the code once it has six characters,
 * and joining the previewed group (`handleJoin`).
 */
module JoinScreen {
  import opened Wrappers
  import opened Text
  import InviteCode
  import M = Membership

  const InvalidCodeMessage := "Invalid invite code. Please check and try again."
  const CouldNotValidateMessage := "Could not validate code. Please try again."
  const JoinFailedMessage := "Failed to join group. Please try again."

  // ---------------------------------------------------------------------
  // Cleaning the typed code
  // ---------------------------------------------------------------------

  /** `replace(/[^A-Za-z0-9]/g, '')`: the letters and digits of `s`, in order. */
  function KeepAlphanumeric(s: string): string {
    if s == [] then []
    else (if IsAlphanumeric(s[0]) then [s[0]] else []) + KeepAlphanumeric(s[1..])
  }

  /** `slice(0, n)`: the first `n` characters, or all of them when there are fewer. */
  function Take(s: string, n: nat): string {
    if |s| <= n then s else s[..n]
  }

  /** `handleCodeChange`: letters and digits only, upper-cased, at most six. */
  function CleanCode(value: string): (cleaned: string)
    ensures |cleaned| <= InviteCode.CodeLength
    ensures forall i :: 0 <= i < |cleaned| ==> IsCodeChar(cleaned[i])
  {
    KeepAlphanumericFacts(value);
    Take(ToUpper(KeepAlphanumeric(value)), InviteCode.CodeLength)
  }

  lemma {:induction false} KeepAlphanumericFacts(s: string)
    ensures |KeepAlphanumeric(s)| <= |s|
    ensures forall i :: 0 <= i < |KeepAlphanumeric(s)| ==> IsAlphanumeric(KeepAlphanumeric(s)[i])
  {
    if s != [] {
      KeepAlphanumericFacts(s[1..]);
    }
  }

  lemma {:induction false} KeepAlphanumericAppend(a: string, b: string)
    ensures KeepAlphanumeric(a + b) == KeepAlphanumeric(a) + KeepAlphanumeric(b)
  {
    if a == [] {
      assert a + b == b;
    } else {
      var head := if IsAlphanumeric(a[0]) then [a[0]] else [];
      assert (a + b)[0] == a[0];
      assert (a + b)[1..] == a[1..] + b;
      KeepAlphanumericAppend(a[1..], b);
      assert KeepAlphanumeric(a + b) == head + (KeepAlphanumeric(a[1..]) + KeepAlphanumeric(b));
      assert KeepAlphanumeric(a) == head + KeepAlphanumeric(a[1..]);
      assert head + (KeepAlphanumeric(a[1..]) + KeepAlphanumeric(b)) ==
             (head + KeepAlphanumeric(a[1..])) + KeepAlphanumeric(b);
    }
  }

  /** A string of letters and digits passes the filter unchanged. */
  lemma {:induction false} KeepAlphanumericAll(s: string)
    requires forall i :: 0 <= i < |s| ==> IsAlphanumeric(s[i])
    ensures KeepAlphanumeric(s) == s
  {
    if s != [] {
      KeepAlphanumericAll(s[1..]);
    }
  }

  /** Upper-casing first does not change which characters the filter keeps. */
  lemma {:induction false} KeepAlphanumericUpper(s: string)
    ensures KeepAlphanumeric(ToUpper(s)) == ToUpper(KeepAlphanumeric(s))
  {
    if s != [] {
      assert ToUpper(s)[1..] == ToUpper(s[1..]);
      KeepAlphanumericUpper(s[1..]);
      assert ToUpper([s[0]] + KeepAlphanumeric(s[1..])) == [UpperChar(s[0])] + ToUpper(KeepAlphanumeric(s[1..]));
    }
  }

  lemma ToUpperAppend(a: string, b: string)
    ensures ToUpper(a + b) == ToUpper(a) + ToUpper(b)
  {
  }

  /** A clean code of at most six characters comes back unchanged. */
  lemma CleanCodeFixedPoint(s: string)
    requires |s| <= InviteCode.CodeLength
    requires forall i :: 0 <= i < |s| ==> IsCodeChar(s[i])
    ensures CleanCode(s) == s
  {
    KeepAlphanumericAll(s);
    UpperCodeCharsUnchanged(s);
  }

  /** Cleaning twice is cleaning once. */
  lemma CleanCodeIdempotent(value: string)
    ensures CleanCode(CleanCode(value)) == CleanCode(value)
  {
    CleanCodeFixedPoint(CleanCode(value));
  }

  /** Typing more characters never changes the characters already accepted. */
  lemma CleanCodePrefix(typed: string, more: string)
    ensures CleanCode(typed) <= CleanCode(typed + more)
  {
    KeepAlphanumericAppend(typed, more);
    ToUpperAppend(KeepAlphanumeric(typed), KeepAlphanumeric(more));
  }

  /** Letter case does not matter: typing in upper case gives the same code. */
  lemma CleanCodeCaseInsensitive(value: string)
    ensures CleanCode(ToUpper(value)) == CleanCode(value)
  {
    KeepAlphanumericUpper(value);
    KeepAlphanumericFacts(value);
    var kept := KeepAlphanumeric(value);
    forall i | 0 <= i < |kept| ensures IsCodeChar(ToUpper(kept)[i]) {
    }
    UpperCodeCharsUnchanged(ToUpper(kept));
  }

  /** A generated invite code survives cleaning unchanged. */
  lemma GeneratedCodeIsClean(draws: seq<InviteCode.Draw>)
    requires |draws| == InviteCode.CodeLength
    ensures CleanCode(InviteCode.Encode(draws)) == InviteCode.Encode(draws)
  {
    InviteCode.EncodedSymbols(draws);
    CleanCodeFixedPoint(InviteCode.Encode(draws));
  }

  // ---------------------------------------------------------------------
  // Validating a complete code
  // ---------------------------------------------------------------------

  /** The answer of `getGroupByInviteCode`: a group, none, or a thrown error. */
  datatype Lookup = Found(preview: M.GroupPreview) | NotFound | LookupFailed

  /** What the screen shows about the code: the group preview and the error line. */
  datatype CodeView = CodeView(preview: Option<M.GroupPreview>, error: Option<string>)

  /** The lookup against the group tables, for a code the screen has cleaned. */
  function LookupIn(groups: seq<M.Group>, rows: seq<M.MemberRow>, code: string): Lookup {
    match M.GroupByInviteCode(groups, rows, code)
    case Some(p) => Found(p)
    case None => NotFound
  }

  /**
   * A new code: six characters start `validateCode`, which first clears the
   * error; any other length clears both preview and error.
   */
  function CodeChanged(view: CodeView, code: string): CodeView {
    if |code| == InviteCode.CodeLength then CodeView(view.preview, None) else CodeView(None, None)
  }

  /**
   * The awaited lookup comes back: a group is shown, and a miss or a failure
   * sets the error. Nothing checks which code the screen holds by then.
   */
  function LookupResolved(view: CodeView, lookup: Lookup): CodeView {
    match lookup
    case Found(p) => CodeView(Some(p), view.error)
    case NotFound => CodeView(view.preview, Some(InvalidCodeMessage))
    case LookupFailed => CodeView(view.preview, Some(CouldNotValidateMessage))
  }

  /** A code change whose lookup, if one starts, comes back before the next change. */
  function OnCodeChange(view: CodeView, code: string, lookup: Lookup): CodeView {
    if |code| == InviteCode.CodeLength then LookupResolved(CodeChanged(view, code), lookup)
    else CodeChanged(view, code)
  }

  /**
   * Only a six-character code is validated; every other length clears the
   * preview and the error. A failed lookup does not clear a preview shown
   * for an earlier code.
   */
  lemma ValidationTrigger(view: CodeView, code: string, lookup: Lookup)
    ensures |code| != InviteCode.CodeLength ==> OnCodeChange(view, code, lookup) == CodeView(None, None)
    ensures |code| == InviteCode.CodeLength && lookup.Found? ==>
              OnCodeChange(view, code, lookup) == CodeView(Some(lookup.preview), None)
    ensures |code| == InviteCode.CodeLength && !lookup.Found? ==>
              OnCodeChange(view, code, lookup).preview == view.preview &&
              OnCodeChange(view, code, lookup).error.Some?
  {
  }

  /**
   * The lookup is not cancelled: if the user shortens a complete code before
   * its lookup comes back, the cleared preview is filled again and shown next
   * to an incomplete code.
   */
  lemma LateLookupShowsStalePreview(view: CodeView, complete: string, shorter: string, p: M.GroupPreview)
    requires |complete| == InviteCode.CodeLength && |shorter| != InviteCode.CodeLength
    ensures CodeChanged(CodeChanged(view, complete), shorter).preview == None
    ensures LookupResolved(CodeChanged(CodeChanged(view, complete), shorter), Found(p)) == CodeView(Some(p), None)
  {
  }

  /**
   * With a store holding only group `g`, typing its code in any case and with
   * any separators shows that group's preview.
   */
  lemma TypedCodeShowsOnlyGroup(view: CodeView, g: M.Group, typed: string)
    requires |g.inviteCode| == InviteCode.CodeLength
    requires CleanCode(typed) == g.inviteCode
    ensures OnCodeChange(view, CleanCode(typed), LookupIn([g], [], CleanCode(typed))).preview ==
            Some(M.GroupPreview(g, 1))
  {
    var code := CleanCode(typed);
    UpperCodeCharsUnchanged(code);
    M.OnlyGroupFoundByCode(g, code);
  }

  // ---------------------------------------------------------------------
  // Joining the previewed group
  // ---------------------------------------------------------------------

  datatype JoinResult = NoOp | Forwarded(group: M.GroupPreview) | JoinedGroup(group: M.GroupPreview) | JoinError(message: string)

  /**
   * `handleJoin`: without a preview or a user nothing happens; a current
   * member is forwarded to the group; otherwise a `member` row is inserted
   * and the screen moves on, or shows an error when the insert fails.
   */
  method HandleJoin(store: M.Store, preview: Option<M.GroupPreview>, user: Option<M.UserId>, insertFails: bool)
    returns (r: JoinResult)
    modifies store
    ensures store.groups == old(store.groups)
    ensures preview.None? || user.None? ==> r == NoOp && store.members == old(store.members)
    ensures preview.Some? && user.Some? ==>
              var g := preview.value.group.id;
              if old(M.IsGroupMember(store.members, g, user.value)) then
                r == Forwarded(preview.value) && store.members == old(store.members)
              else if insertFails then
                r == JoinError(JoinFailedMessage) && store.members == old(store.members)
              else
                r == JoinedGroup(preview.value) && store.members == old(store.members) + [M.MemberRow(g, user.value, M.Member)]
    ensures old(M.Consistent(store.groups, store.members)) && preview.Some? && preview.value.group.id < |store.groups| ==>
              M.Consistent(store.groups, store.members)
  {
    if preview.None? || user.None? {
      return NoOp;
    }
    var g := preview.value.group.id;
    var isMember := M.IsGroupMember(store.members, g, user.value);
    if isMember {
      return Forwarded(preview.value);
    }
    if M.Consistent(store.groups, store.members) {
      M.UniqueAtMostOne(store.members, g, user.value);
    }
    var success := store.JoinGroup(g, user.value, insertFails);
    if success {
      r := JoinedGroup(preview.value);
    } else {
      r := JoinError(JoinFailedMessage);
    }
  }
}
