/** The form guard: one validation pass over the username and email fields,
    the inline error annotations it leaves in the fields' containers, and
    the submit handler's accept/block decision. */
module FormGuard {
  import opened JsString
  import opened Escape
  import opened Email

  const SpacesMessage := "Usernames cannot include spaces"
  const LengthMessage := "Usernames must be at least 4 characters in length"
  const EmailMessage := "Please enter a valid email address."

  /** The class that marks an annotation, and the shortest username accepted,
      counted in UTF-16 code units after escaping and trimming. */
  const ErrorClass := "error-message"
  const MinUsernameLength := 4

  /** A child element of a field container. */
  datatype Node = Node(tag: string, text: string, classes: set<string>, attributes: map<string, string>)

  /** The annotation `showInputError` creates: a `div` showing `message`,
      class `error-message`, ARIA role `alert`. */
  function ErrorNode(message: string): (n: Node)
    ensures IsErrorMessage(n)
  {
    Node("div", message, {ErrorClass}, map["role" := "alert"])
  }

  /** What `.error-message` selects. */
  predicate IsErrorMessage(n: Node) {
    ErrorClass in n.classes
  }

  // ---------------------------------------------------------------------
  // The rules, on the raw field values

  /** The username messages of one pass, in the order they are shown. */
  function UsernameFailures(raw: string): (r: seq<string>)
    ensures SpacesMessage in r <==> ' ' in raw
    ensures LengthMessage in r <==> Utf16Length(Trim(EscapeHtml(raw))) < MinUsernameLength
    ensures r == [] || r == [SpacesMessage] || r == [LengthMessage] || r == [SpacesMessage, LengthMessage]
  {
    var value := EscapeHtml(raw);
    SpaceSurvivesEscape(raw);
    (if ' ' in value then [SpacesMessage] else []) +
    (if Utf16Length(Trim(value)) < MinUsernameLength then [LengthMessage] else [])
  }

  /** The email message of one pass: present exactly when the raw value does
      not match the pattern (testing the escaped value changes nothing). */
  function EmailFailures(raw: string): (r: seq<string>)
    ensures r == [] <==> PatternMatches(raw)
    ensures r == [] || r == [EmailMessage]
  {
    VerdictIgnoresEscaping(raw);
    MatchesEmailIffPattern(raw);
    if MatchesEmail(EscapeHtml(raw)) then [] else [EmailMessage]
  }

  /** Every message of one pass, in the order the pass shows them. */
  function PassFailures(username: string, email: string): (r: seq<string>)
    ensures r == [] <==> ' ' !in username && Utf16Length(Trim(EscapeHtml(username))) >= MinUsernameLength && PatternMatches(email)
  {
    UsernameFailures(username) + EmailFailures(email)
  }

  // ---------------------------------------------------------------------
  // Escaping and the length rule

  /** The length rule looks at the escaped value, so it is never stricter
      than the same rule on the raw value, and the two agree on values
      without special characters. */
  lemma LengthRuleOnEscapedValue(raw: string)
    ensures Utf16Length(Trim(EscapeHtml(raw))) >= Utf16Length(Trim(raw))
    ensures (forall k :: 0 <= k < |raw| ==> !IsSpecial(raw[k])) ==>
      Utf16Length(Trim(EscapeHtml(raw))) == Utf16Length(Trim(raw))
  {
    TrimEscapeCommute(raw);
    EscapeHtmlIsEntityMap(Trim(raw));
    Utf16LengthEntityMap(Trim(raw));
    EscapeHtmlIdentity(raw);
  }

  lemma EscapeHtmlPair(c: char)
    ensures EscapeHtml([c, c]) == Entity(c) + Entity(c)
  {
    assert [c, c] == [c] + [c];
    EscapeHtmlAppend([c], [c]);
    EscapeHtmlChar(c);
  }

  /** A username of one special character twice is two code units long, yet
      passes the length rule, since its escaped form is at least eight. */
  lemma EscapedShortUsernamePasses(c: char)
    requires IsSpecial(c)
    ensures Utf16Length(Trim([c, c])) == 2
    ensures UsernameFailures([c, c]) == []
  {
    assert UsernameFailures([c, c]) == [] by {
      EscapedPairLength(c);
      assert ' ' !in [c, c];
    }
    RawPairLength(c);
  }

  lemma RawPairLength(c: char)
    requires IsSpecial(c)
    ensures Utf16Length(Trim([c, c])) == 2
  {
    TrimOfPlain([c, c]);
    Utf16LengthOfAscii([c, c]);
  }

  lemma EscapedPairLength(c: char)
    requires IsSpecial(c)
    ensures Utf16Length(Trim(EscapeHtml([c, c]))) >= 8
  {
    var v := Entity(c) + Entity(c);
    EscapeHtmlPair(c);
    TrimOfPlain(v);
    Utf16LengthAppend(Entity(c), Entity(c));
  }

  /** A string that neither starts nor ends with whitespace trims to itself. */
  lemma TrimOfPlain(s: string)
    requires s != [] && !IsWhitespace(s[0]) && !IsWhitespace(s[|s| - 1])
    ensures Trim(s) == s
  {
  }

  lemma {:induction false} Utf16LengthOfAscii(s: string)
    requires forall k :: 0 <= k < |s| ==> s[k] as int < 0x80
    ensures Utf16Length(s) == |s|
    decreases |s|
  {
    if s != [] {
      Utf16LengthOfAscii(s[..|s| - 1]);
    }
  }

  // ---------------------------------------------------------------------
  // Containers and their annotations

  /** The children of a container that are not annotations, in order. */
  function WithoutErrors(s: seq<Node>): (r: seq<Node>)
    ensures |r| <= |s|
    ensures forall k :: 0 <= k < |r| ==> !IsErrorMessage(r[k])
    ensures (forall k :: 0 <= k < |s| ==> !IsErrorMessage(s[k])) ==> r == s
  {
    if s == [] then []
    else WithoutErrors(s[..|s| - 1]) + (if IsErrorMessage(s[|s| - 1]) then [] else [s[|s| - 1]])
  }

  /** The annotations among the children of a container, in order. */
  function ErrorsIn(s: seq<Node>): (r: seq<Node>)
    ensures |r| <= |s|
    ensures forall k :: 0 <= k < |r| ==> IsErrorMessage(r[k])
  {
    if s == [] then []
    else ErrorsIn(s[..|s| - 1]) + (if IsErrorMessage(s[|s| - 1]) then [s[|s| - 1]] else [])
  }

  lemma {:induction false} FiltersAppend(a: seq<Node>, b: seq<Node>)
    ensures WithoutErrors(a + b) == WithoutErrors(a) + WithoutErrors(b)
    ensures ErrorsIn(a + b) == ErrorsIn(a) + ErrorsIn(b)
    decreases |b|
  {
    if b == [] {
      assert a + b == a;
    } else {
      assert (a + b)[..|a + b| - 1] == a + b[..|b| - 1];
      FiltersAppend(a, b[..|b| - 1]);
    }
  }

  /** The two filters split a container: every child is kept by exactly one
      of them. */
  lemma {:induction false} FiltersPartition(s: seq<Node>)
    ensures multiset(WithoutErrors(s)) + multiset(ErrorsIn(s)) == multiset(s)
    decreases |s|
  {
    if s != [] {
      FiltersPartition(s[..|s| - 1]);
      assert s == s[..|s| - 1] + [s[|s| - 1]];
    }
  }

  /** `.error-message` selects every annotation of a container and nothing
      else, and removing them keeps every other child. */
  lemma FiltersSelect(s: seq<Node>)
    ensures forall n :: n in ErrorsIn(s) <==> n in s && IsErrorMessage(n)
    ensures forall n :: n in WithoutErrors(s) <==> n in s && !IsErrorMessage(n)
  {
    FiltersPartition(s);
    forall n | n in s
      ensures n in WithoutErrors(s) || n in ErrorsIn(s)
    {
      assert n in multiset(s);
    }
    forall n | n in WithoutErrors(s) || n in ErrorsIn(s)
      ensures n in s
    {
      assert n in multiset(WithoutErrors(s)) + multiset(ErrorsIn(s));
    }
  }

  /** The annotations shown for a list of messages, one per message, in order. */
  function Notes(messages: seq<string>): seq<Node> {
    seq(|messages|, k requires 0 <= k < |messages| => ErrorNode(messages[k]))
  }

  lemma {:induction false} NotesAreAnnotations(messages: seq<string>)
    ensures WithoutErrors(Notes(messages)) == []
    ensures ErrorsIn(Notes(messages)) == Notes(messages)
    decreases |messages|
  {
    if messages != [] {
      var init := messages[..|messages| - 1];
      assert Notes(messages)[..|messages| - 1] == Notes(init);
      NotesAreAnnotations(init);
    }
  }

  /** The annotations the username checks add, given the two verdicts. */
  lemma UsernameNotes(username: string, hasSpace: bool, tooShort: bool)
    requires hasSpace == (' ' in EscapeHtml(username))
    requires tooShort == (Utf16Length(Trim(EscapeHtml(username))) < MinUsernameLength)
    ensures Notes(UsernameFailures(username)) ==
      (if hasSpace then [ErrorNode(SpacesMessage)] else []) + (if tooShort then [ErrorNode(LengthMessage)] else [])
    ensures UsernameFailures(username) == [] <==> !hasSpace && !tooShort
  {
    NotesOfOptional(hasSpace, SpacesMessage, tooShort, LengthMessage);
  }

  /** The annotations for one optional message followed by another. */
  lemma NotesOfOptional(b1: bool, m1: string, b2: bool, m2: string)
    ensures Notes((if b1 then [m1] else []) + (if b2 then [m2] else [])) ==
      (if b1 then [ErrorNode(m1)] else []) + (if b2 then [ErrorNode(m2)] else [])
  {
    NotesAppend(if b1 then [m1] else [], if b2 then [m2] else []);
  }

  lemma NotesAppend(a: seq<string>, b: seq<string>)
    ensures Notes(a + b) == Notes(a) + Notes(b)
  {
  }

  /** The annotation the email check adds, given its verdict. */
  lemma EmailNotes(email: string, emailOk: bool)
    requires emailOk == MatchesEmail(EscapeHtml(email))
    ensures Notes(EmailFailures(email)) == if emailOk then [] else [ErrorNode(EmailMessage)]
    ensures EmailFailures(email) == [] <==> emailOk
  {
  }

  /** One annotation appended to a container is its last annotation, and
      leaves its other children as they were. */
  lemma AppendAnnotation(children: seq<Node>, message: string)
    ensures ErrorsIn(children + [ErrorNode(message)]) == ErrorsIn(children) + [ErrorNode(message)]
    ensures WithoutErrors(children + [ErrorNode(message)]) == WithoutErrors(children)
  {
    var n := children + [ErrorNode(message)];
    assert n[..|n| - 1] == children;
  }

  /** Every container with its annotations removed. */
  function Cleared(boxes: seq<seq<Node>>): (r: seq<seq<Node>>)
    ensures |r| == |boxes|
  {
    seq(|boxes|, i requires 0 <= i < |boxes| => WithoutErrors(boxes[i]))
  }

  /** `userNotes` appended to container `userBox`, then `emailNotes` to
      container `emailBox` (the two may be one container). */
  function Annotate(boxes: seq<seq<Node>>, userBox: nat, emailBox: nat, userNotes: seq<Node>, emailNotes: seq<Node>): (r: seq<seq<Node>>)
    requires userBox < |boxes| && emailBox < |boxes|
    ensures |r| == |boxes|
  {
    var c := boxes[userBox := boxes[userBox] + userNotes];
    c[emailBox := c[emailBox] + emailNotes]
  }

  /** The containers after one pass: annotations removed everywhere, then the
      username messages added to the username's container and the email
      message to the email's. */
  function AfterPass(boxes: seq<seq<Node>>, userBox: nat, emailBox: nat, username: string, email: string): (r: seq<seq<Node>>)
    requires userBox < |boxes| && emailBox < |boxes|
    ensures |r| == |boxes|
  {
    Annotate(Cleared(boxes), userBox, emailBox, Notes(UsernameFailures(username)), Notes(EmailFailures(email)))
  }

  lemma AnnotateCleared(boxes: seq<seq<Node>>, userBox: nat, emailBox: nat, u: seq<Node>, e: seq<Node>, i: nat)
    requires userBox < |boxes| && emailBox < |boxes| && i < |boxes|
    requires WithoutErrors(u) == [] && ErrorsIn(u) == u
    requires WithoutErrors(e) == [] && ErrorsIn(e) == e
    ensures |Annotate(Cleared(boxes), userBox, emailBox, u, e)| == |boxes|
    ensures ErrorsIn(Annotate(Cleared(boxes), userBox, emailBox, u, e)[i]) ==
      (if i == userBox then u else []) + (if i == emailBox then e else [])
    ensures WithoutErrors(Annotate(Cleared(boxes), userBox, emailBox, u, e)[i]) == WithoutErrors(boxes[i])
  {
    var w := WithoutErrors(boxes[i]);
    var u' := if i == userBox then u else [];
    var e' := if i == emailBox then e else [];
    AnnotateAt(Cleared(boxes), userBox, emailBox, u, e, i);
    FiltersOfAnnotated(w, u', e');
  }

  /** Container `i` after annotating: what it held, then the notes aimed at it. */
  lemma AnnotateAt(boxes: seq<seq<Node>>, userBox: nat, emailBox: nat, u: seq<Node>, e: seq<Node>, i: nat)
    requires userBox < |boxes| && emailBox < |boxes| && i < |boxes|
    ensures |Annotate(boxes, userBox, emailBox, u, e)| == |boxes|
    ensures Annotate(boxes, userBox, emailBox, u, e)[i] ==
      boxes[i] + (if i == userBox then u else []) + (if i == emailBox then e else [])
  {
    assert boxes[i] + [] == boxes[i];
    assert boxes[i] + u + [] == boxes[i] + u;
  }

  /** Annotations appended to a clean container are exactly its annotations. */
  lemma FiltersOfAnnotated(w: seq<Node>, u: seq<Node>, e: seq<Node>)
    requires forall k :: 0 <= k < |w| ==> !IsErrorMessage(w[k])
    requires WithoutErrors(u) == [] && ErrorsIn(u) == u
    requires WithoutErrors(e) == [] && ErrorsIn(e) == e
    ensures ErrorsIn(w + u + e) == u + e
    ensures WithoutErrors(w + u + e) == w
  {
    ErrorsOfClean(w);
    FiltersAppend(w, u);
    FiltersAppend(w + u, e);
    assert [] + u == u;
    assert w + [] == w;
  }

  /** After a pass, container `i` holds exactly this pass's annotations for
      the fields it contains, username ones first, and its other children
      are those it had before. */
  lemma PassAnnotations(boxes: seq<seq<Node>>, userBox: nat, emailBox: nat, username: string, email: string, i: nat)
    requires userBox < |boxes| && emailBox < |boxes| && i < |boxes|
    ensures |AfterPass(boxes, userBox, emailBox, username, email)| == |boxes|
    ensures ErrorsIn(AfterPass(boxes, userBox, emailBox, username, email)[i]) ==
      (if i == userBox then Notes(UsernameFailures(username)) else []) +
      (if i == emailBox then Notes(EmailFailures(email)) else [])
    ensures WithoutErrors(AfterPass(boxes, userBox, emailBox, username, email)[i]) == WithoutErrors(boxes[i])
  {
    NotesAreAnnotations(UsernameFailures(username));
    NotesAreAnnotations(EmailFailures(email));
    AnnotateCleared(boxes, userBox, emailBox, Notes(UsernameFailures(username)), Notes(EmailFailures(email)), i);
  }

  lemma {:induction false} ErrorsOfClean(s: seq<Node>)
    requires forall k :: 0 <= k < |s| ==> !IsErrorMessage(s[k])
    ensures ErrorsIn(s) == []
    decreases |s|
  {
    if s != [] {
      ErrorsOfClean(s[..|s| - 1]);
    }
  }

  /** A pass removes the annotations of the previous one before adding its
      own, so a second pass on unchanged values changes nothing. */
  lemma PassIsIdempotent(boxes: seq<seq<Node>>, userBox: nat, emailBox: nat, username: string, email: string)
    requires userBox < |boxes| && emailBox < |boxes|
    ensures AfterPass(AfterPass(boxes, userBox, emailBox, username, email), userBox, emailBox, username, email) ==
            AfterPass(boxes, userBox, emailBox, username, email)
  {
    PassKeepsOtherChildren(boxes, userBox, emailBox, username, email);
  }

  /** Removing annotations after a pass gives what removing them before it gave. */
  lemma PassKeepsOtherChildren(boxes: seq<seq<Node>>, userBox: nat, emailBox: nat, username: string, email: string)
    requires userBox < |boxes| && emailBox < |boxes|
    ensures Cleared(AfterPass(boxes, userBox, emailBox, username, email)) == Cleared(boxes)
  {
    NotesAreAnnotations(UsernameFailures(username));
    NotesAreAnnotations(EmailFailures(email));
    ClearedAnnotate(boxes, userBox, emailBox, Notes(UsernameFailures(username)), Notes(EmailFailures(email)));
  }

  lemma ClearedAnnotate(boxes: seq<seq<Node>>, userBox: nat, emailBox: nat, u: seq<Node>, e: seq<Node>)
    requires userBox < |boxes| && emailBox < |boxes|
    requires WithoutErrors(u) == [] && ErrorsIn(u) == u
    requires WithoutErrors(e) == [] && ErrorsIn(e) == e
    ensures Cleared(Annotate(Cleared(boxes), userBox, emailBox, u, e)) == Cleared(boxes)
  {
    var once := Annotate(Cleared(boxes), userBox, emailBox, u, e);
    AnnotateAt(Cleared(boxes), userBox, emailBox, u, e, 0);
    forall i | 0 <= i < |boxes|
      ensures WithoutErrors(once[i]) == WithoutErrors(boxes[i])
    {
      AnnotateCleared(boxes, userBox, emailBox, u, e, i);
    }
  }

  /** The pass reports success exactly when it leaves no annotation anywhere. */
  lemma VerdictIffNoAnnotation(boxes: seq<seq<Node>>, userBox: nat, emailBox: nat, username: string, email: string)
    requires userBox < |boxes| && emailBox < |boxes|
    ensures var after := AfterPass(boxes, userBox, emailBox, username, email);
      PassFailures(username, email) == [] <==> forall i :: 0 <= i < |after| ==> ErrorsIn(after[i]) == []
  {
    var after := AfterPass(boxes, userBox, emailBox, username, email);
    PassAnnotations(boxes, userBox, emailBox, username, email, userBox);
    PassAnnotations(boxes, userBox, emailBox, username, email, emailBox);
    if PassFailures(username, email) == [] {
      forall i | 0 <= i < |after| ensures ErrorsIn(after[i]) == [] {
        PassAnnotations(boxes, userBox, emailBox, username, email, i);
      }
    }
  }

  /** Two appends to container `box`, each made or not, add the nodes made. */
  lemma OptionalAppends(a: seq<seq<Node>>, box: nat, b: seq<seq<Node>>, c: seq<seq<Node>>,
                        b1: bool, n1: Node, b2: bool, n2: Node)
    requires box < |a|
    requires b == if b1 then a[box := a[box] + [n1]] else a
    requires c == if b2 then b[box := b[box] + [n2]] else b
    ensures c == a[box := a[box] + ((if b1 then [n1] else []) + (if b2 then [n2] else []))]
  {
    var x := if b1 then [n1] else [];
    var y := if b2 then [n2] else [];
    assert b == a[box := a[box] + x] by { assert a[box] + [] == a[box]; }
    assert c == b[box := b[box] + y] by { assert b[box] + [] == b[box]; }
    assert a[box] + x + y == a[box] + (x + y);
  }

  // ---------------------------------------------------------------------
  // The page

  /** The form's page: the children of every `.input-container`, in document
      order, the containers that hold the username and the email inputs, and
      whether the form has been submitted. */
  class Form {
    const usernameBox: nat
    const emailBox: nat
    var containers: seq<seq<Node>>
    var submitted: bool

    ghost predicate Valid()
      reads this
    {
      usernameBox < |containers| && emailBox < |containers|
    }

    constructor (containers: seq<seq<Node>>, usernameBox: nat, emailBox: nat)
      requires usernameBox < |containers| && emailBox < |containers|
      ensures Valid()
      ensures this.containers == containers && this.usernameBox == usernameBox && this.emailBox == emailBox
      ensures !submitted
    {
      this.containers := containers;
      this.usernameBox := usernameBox;
      this.emailBox := emailBox;
      this.submitted := false;
    }

    /** `showInputError`: one annotation appended at the end of container `box`. */
    method ShowInputError(box: nat, message: string)
      requires box < |containers|
      modifies this
      ensures containers == old(containers)[box := old(containers)[box] + [ErrorNode(message)]]
      ensures ErrorsIn(containers[box]) == ErrorsIn(old(containers)[box]) + [ErrorNode(message)]
      ensures WithoutErrors(containers[box]) == WithoutErrors(old(containers)[box])
      ensures submitted == old(submitted)
    {
      AppendAnnotation(containers[box], message);
      containers := containers[box := containers[box] + [ErrorNode(message)]];
    }

    /** Removes every `.error-message` node of the page. */
    method RemoveErrorMessages()
      modifies this
      ensures containers == Cleared(old(containers))
      ensures submitted == old(submitted)
    {
      var boxes := containers;
      var i := 0;
      while i < |boxes|
        invariant 0 <= i <= |boxes| == |containers|
        invariant forall k :: 0 <= k < i ==> boxes[k] == WithoutErrors(containers[k])
        invariant forall k :: i <= k < |boxes| ==> boxes[k] == containers[k]
      {
        var children := boxes[i];
        var kept: seq<Node> := [];
        var j := 0;
        while j < |children|
          invariant 0 <= j <= |children|
          invariant kept == WithoutErrors(children[..j])
        {
          assert children[..j + 1][..j] == children[..j];
          if !IsErrorMessage(children[j]) {
            kept := kept + [children[j]];
          }
          j := j + 1;
        }
        assert children[..j] == children;
        boxes := boxes[i := kept];
        i := i + 1;
      }
      containers := boxes;
    }

    /** The username block of `validateForm`: the escaped value is checked
        for a space, then for its trimmed length, and each failure appends
        its message to the username's container. */
    method CheckUsername(username: string) returns (ok: bool)
      requires Valid()
      modifies this
      ensures Valid()
      ensures containers == old(containers)[usernameBox := old(containers)[usernameBox] + Notes(UsernameFailures(username))]
      ensures ok <==> UsernameFailures(username) == []
      ensures submitted == old(submitted)
    {
      ghost var start := containers;
      ok := true;
      var userNameValue := EscapeHtml(username);
      var hasSpace := ' ' in userNameValue;
      if hasSpace {
        ok := false;
        ShowInputError(usernameBox, SpacesMessage);
      }
      ghost var spaced := containers;
      var tooShort := Utf16Length(Trim(userNameValue)) < MinUsernameLength;
      if tooShort {
        ok := false;
        ShowInputError(usernameBox, LengthMessage);
      }
      UsernameNotes(username, hasSpace, tooShort);
      OptionalAppends(start, usernameBox, spaced, containers, hasSpace, ErrorNode(SpacesMessage), tooShort, ErrorNode(LengthMessage));
    }

    /** The email block of `validateForm`: the escaped value is tested
        against the pattern, and a failure appends its message to the
        email's container. */
    method CheckEmail(email: string) returns (ok: bool)
      requires Valid()
      modifies this
      ensures Valid()
      ensures containers == old(containers)[emailBox := old(containers)[emailBox] + Notes(EmailFailures(email))]
      ensures ok <==> EmailFailures(email) == []
      ensures submitted == old(submitted)
    {
      ok := true;
      var emailInputValue := EscapeHtml(email);
      var emailOk := MatchesEmail(emailInputValue);
      EmailNotes(email, emailOk);
      if !emailOk {
        ShowInputError(emailBox, EmailMessage);
        ok := false;
      } else {
        assert containers[emailBox] + [] == containers[emailBox];
      }
    }

    /** `validateForm`: one pass over the current field values. */
    method ValidateForm(username: string, email: string) returns (isValid: bool)
      requires Valid()
      modifies this
      ensures Valid()
      ensures containers == AfterPass(old(containers), usernameBox, emailBox, username, email)
      ensures isValid <==> PassFailures(username, email) == []
      ensures isValid <==> forall i :: 0 <= i < |containers| ==> ErrorsIn(containers[i]) == []
      ensures submitted == old(submitted)
    {
      ghost var before := containers;
      isValid := true;
      RemoveErrorMessages();
      var userOk := CheckUsername(username);
      if !userOk {
        isValid := false;
      }
      var emailOk := CheckEmail(email);
      if !emailOk {
        isValid := false;
      }
      VerdictIffNoAnnotation(before, usernameBox, emailBox, username, email);
    }

    /** The submit handler: the native submission is always suppressed, and
        the form is submitted programmatically exactly when the pass succeeds. */
    method OnSubmit(username: string, email: string) returns (sent: bool)
      requires Valid()
      modifies this
      ensures Valid()
      ensures containers == AfterPass(old(containers), usernameBox, emailBox, username, email)
      ensures sent <==> PassFailures(username, email) == []
      ensures submitted == (old(submitted) || sent)
    {
      var isValid := ValidateForm(username, email);
      ghost var after := containers;
      if isValid {
        submitted := true;
      }
      assert containers == after;
      sent := isValid;
    }
  }
}
