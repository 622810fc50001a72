/**
 * `perform_actions`: each action string of a fired rule becomes at most one
 * `modify` request on the email, in the order the actions are listed.
 */
module Actions {
  import opened Common
  import opened Text
  import opened Mail

  const MarkAsReadText := "mark_as_read"
  const MovePrefix := "move_to_folder:"

  /** The decoded meaning of an action string. */
  datatype Action = MarkAsRead | MoveToFolder(folder: string)

  /**
   * How `perform_actions` reads an action string: exactly `mark_as_read`, or
   * `move_to_folder:` followed by the folder name, which `split(':')[1]` cuts
   * at the next colon. Anything else is ignored (`None`).
   */
  function Decode(action: string): (r: Option<Action>)
    ensures r == Some(MarkAsRead) <==> action == MarkAsReadText
    ensures (r.Some? && r.value.MoveToFolder?) <==> MovePrefix <= action
    ensures r.Some? && r.value.MoveToFolder? ==>
      var name := r.value.folder;
      && ':' !in name
      && MovePrefix + name <= action
      && (|MovePrefix + name| < |action| ==> action[|MovePrefix + name|] == ':')
  {
    if action == MarkAsReadText then Some(MarkAsRead)
    else if MovePrefix <= action then
      var name := UpTo(action[|MovePrefix|..], ':');
      assert action == MovePrefix + action[|MovePrefix|..];
      Some(MoveToFolder(name))
    else None
  }

  /** The action string that requests `a`. */
  function Encode(a: Action): string {
    match a
    case MarkAsRead => MarkAsReadText
    case MoveToFolder(name) => MovePrefix + name
  }

  /**
   * Decoding inverts encoding exactly when the folder name has no colon; a
   * colon in the name cuts it short.
   */
  lemma DecodeEncode(a: Action)
    ensures Decode(Encode(a)) == Some(a) <==> (a.MoveToFolder? ==> ':' !in a.folder)
  {
    if a.MoveToFolder? {
      var s := Encode(a);
      assert s[|MovePrefix|..] == a.folder;
      if ':' !in a.folder {
        UpToWhole(a.folder, ':');
      }
    }
  }

  lemma UpToWhole(s: string, c: char)
    requires c !in s
    ensures UpTo(s, c) == s
  {
  }

  lemma {:induction false} UpToPrefix(s: string, rest: string, c: char)
    requires c !in s
    requires rest == [] || rest[0] == c
    ensures UpTo(s + rest, c) == s
    decreases |s|
  {
    if |s| > 0 {
      assert (s + rest)[1..] == s[1..] + rest;
      assert c !in s[1..];
      UpToPrefix(s[1..], rest, c);
    } else {
      assert s + rest == rest;
    }
  }

  /** `lbl['name'].lower() == label_name.lower()`: the names agree up to the case of ASCII letters. */
  predicate NameMatches(l: Label, name: string)
    ensures NameMatches(l, name) <==>
      |l.name| == |name| && forall i :: 0 <= i < |name| ==> CaseAlike(l.name[i], name[i])
  {
    LowerAlike(l.name, name);
    Lower(l.name) == Lower(name)
  }

  /** `labels[i]` is the first label whose name matches. */
  ghost predicate FirstMatch(labels: seq<Label>, name: string, i: int) {
    && 0 <= i < |labels|
    && NameMatches(labels[i], name)
    && forall j :: 0 <= j < i ==> !NameMatches(labels[j], name)
  }

  /**
   * `next((lbl['id'] for lbl in labels if ...), None)`: the id of the first
   * label whose name matches case-insensitively.
   */
  function FindLabel(labels: seq<Label>, name: string): (r: Option<string>)
    ensures r.None? <==> forall i :: 0 <= i < |labels| ==> !NameMatches(labels[i], name)
    ensures r.Some? ==> exists i :: FirstMatch(labels, name, i) && labels[i].id == r.value
  {
    if |labels| == 0 then None
    else if NameMatches(labels[0], name) then
      assert FirstMatch(labels, name, 0);
      Some(labels[0].id)
    else
      var r := FindLabel(labels[1..], name);
      assert r.Some? ==> exists i :: FirstMatch(labels, name, i) && labels[i].id == r.value by {
        if r.Some? {
          var i :| FirstMatch(labels[1..], name, i) && labels[1..][i].id == r.value;
          assert FirstMatch(labels, name, i + 1);
        }
      }
      assert r.None? ==> forall i :: 0 <= i < |labels| ==> !NameMatches(labels[i], name) by {
        if r.None? {
          forall i | 0 <= i < |labels|
            ensures !NameMatches(labels[i], name)
          {
            if i > 0 {
              assert labels[i] == labels[1..][i - 1];
            }
          }
        }
      }
      r
  }

  /**
   * The requests one action string produces for `emailId`: at most one, all
   * about that email; a remove-UNREAD request exactly for `mark_as_read`;
   * nothing for a string that is neither action; and a label added only by a
   * non-empty id the mailbox listed.
   */
  function ActionOps(emailId: string, action: string, labels: seq<Label>): (r: seq<Op>)
    ensures |r| <= 1
    ensures forall k :: 0 <= k < |r| ==> r[k].emailId == emailId
    ensures r == [RemoveUnread(emailId)] <==> action == MarkAsReadText
    ensures action != MarkAsReadText && !(MovePrefix <= action) ==> r == []
    ensures forall k :: 0 <= k < |r| && r[k].AddLabel? ==>
      r[k].labelId != "" && exists l :: l in labels && l.id == r[k].labelId
  {
    match Decode(action)
    case None => []
    case Some(MarkAsRead) => [RemoveUnread(emailId)]
    case Some(MoveToFolder(name)) =>
      match FindLabel(labels, name)
      case Some(labelId) =>
        assert exists l :: l in labels && l.id == labelId by {
          var i :| FirstMatch(labels, name, i) && labels[i].id == labelId;
          assert labels[i] in labels;
        }
        if labelId != "" then [AddLabel(emailId, labelId)] else []
      case None => []
  }

  /**
   * `perform_actions(email_id, actions)` against a mailbox whose label list
   * is `labels`: the requests sent, in order. Every request is about
   * `emailId`, every action yields at most one, and a label is only ever
   * added by a non-empty id the mailbox listed.
   */
  function PerformActions(emailId: string, actions: seq<string>, labels: seq<Label>): (ops: seq<Op>)
    ensures |ops| <= |actions|
    ensures forall k :: 0 <= k < |ops| ==> ops[k].emailId == emailId
    ensures forall k :: 0 <= k < |ops| && ops[k].AddLabel? ==>
      ops[k].labelId != "" && exists l :: l in labels && l.id == ops[k].labelId
  {
    if |actions| == 0 then []
    else
      ActionOps(emailId, actions[0], labels) + PerformActions(emailId, actions[1..], labels)
  }

  /** Actions are performed in list order: the requests of a concatenation concatenate. */
  lemma {:induction false} PerformActionsAppend(emailId: string, a: seq<string>, b: seq<string>, labels: seq<Label>)
    ensures PerformActions(emailId, a + b, labels)
         == PerformActions(emailId, a, labels) + PerformActions(emailId, b, labels)
    decreases |a|
  {
    if |a| > 0 {
      assert (a + b)[0] == a[0];
      assert (a + b)[1..] == a[1..] + b;
      PerformActionsAppend(emailId, a[1..], b, labels);
    } else {
      assert a + b == b;
    }
  }

  /** Each `mark_as_read` in the list produces exactly one remove-UNREAD request. */
  lemma {:induction false} MarkAsReadCount(emailId: string, actions: seq<string>, labels: seq<Label>)
    ensures multiset(PerformActions(emailId, actions, labels))[RemoveUnread(emailId)]
         == multiset(actions)[MarkAsReadText]
    decreases |actions|
  {
    if |actions| > 0 {
      assert actions == [actions[0]] + actions[1..];
      MarkAsReadCount(emailId, actions[1..], labels);
    }
  }

  /** A string that is neither `mark_as_read` nor a folder move produces no request. */
  lemma UnrecognisedIsIgnored(emailId: string, action: string, labels: seq<Label>)
    requires action != MarkAsReadText && !(MovePrefix <= action)
    ensures PerformActions(emailId, [action], labels) == []
  {
  }

  /**
   * A folder move adds the first case-insensitively matching label, and only
   * when that label's id is non-empty; otherwise nothing is sent.
   */
  lemma MoveToFolderOps(emailId: string, name: string, rest: string, labels: seq<Label>, labelId: string)
    requires ':' !in name
    requires rest == [] || rest[0] == ':'
    ensures |PerformActions(emailId, [MovePrefix + name + rest], labels)| <= 1
    ensures PerformActions(emailId, [MovePrefix + name + rest], labels) == [AddLabel(emailId, labelId)]
        <==> labelId != "" && exists i :: FirstMatch(labels, name, i) && labels[i].id == labelId
    ensures (forall i :: 0 <= i < |labels| ==> !NameMatches(labels[i], name)) ==>
      PerformActions(emailId, [MovePrefix + name + rest], labels) == []
  {
    var action := MovePrefix + name + rest;
    DecodeMove(name, rest);
    assert PerformActions(emailId, [action], labels) == ActionOps(emailId, action, labels);
    var found := FindLabel(labels, name);
    if found.Some? {
      var j :| FirstMatch(labels, name, j) && labels[j].id == found.value;
      forall i | FirstMatch(labels, name, i)
        ensures i == j
      {
      }
    }
  }

  /** The folder name of a move is everything up to the next colon. */
  lemma DecodeMove(name: string, rest: string)
    requires ':' !in name
    requires rest == [] || rest[0] == ':'
    ensures Decode(MovePrefix + name + rest) == Some(MoveToFolder(name))
  {
    var action := MovePrefix + name + rest;
    assert MovePrefix <= action;
    assert action[|MovePrefix|..] == name + rest;
    UpToPrefix(name, rest, ':');
  }

  /**
   * Moving to a folder the mailbox does not have sends nothing and raises
   * nothing.
   */
  lemma MissingFolderIsNoOp(emailId: string, labels: seq<Label>)
    requires forall l :: l in labels ==> Lower(l.name) != "archive"
    ensures PerformActions(emailId, ["move_to_folder:Archive"], labels) == []
  {
    assert "move_to_folder:Archive" == MovePrefix + "Archive" + "";
    forall i | 0 <= i < |labels|
      ensures !NameMatches(labels[i], "Archive")
    {
      assert labels[i] in labels;
    }
    MoveToFolderOps(emailId, "Archive", "", labels, "");
  }
}
