/**
 * The values the rule engine works on: the email dictionary built by
 * `get_email_details`, the rules loaded from `rules.json`, the mailbox's
 * labels, and the operations and errors evaluation produces.
 */
module Mail {
  import opened Common

  /**
   * An email as the dictionary with keys `id`, `sender`, `subject`, `body`
   * and `received_date`. The date is in whole seconds, `None` when the
   * message carried no `Date` header.
   */
  datatype Email = Email(
    id: string,
    sender: string,
    subject: string,
    body: string,
    receivedDate: Option<int>)

  /** One `{field, predicate, value}` entry of a rule's `conditions` list, as loaded; `test` holds the predicate name. */
  datatype Condition = Condition(field: string, test: string, value: string)

  /** One entry of the `rules` list: its conditions, its `condition_type` and its action strings. */
  datatype Rule = Rule(conditions: seq<Condition>, conditionType: string, actions: seq<string>)

  /** A mailbox label as listed by the Gmail service: `{id, name}`. */
  datatype Label = Label(id: string, name: string)

  /** A `messages().modify` request sent to the mailbox. */
  datatype Op =
    | RemoveUnread(emailId: string)                  // removeLabelIds: ['UNREAD']
    | AddLabel(emailId: string, labelId: string)     // addLabelIds: [labelId]

  /** One call of `perform_actions(email_id, actions)`. */
  datatype Call = Call(emailId: string, actions: seq<string>)

  /** The exceptions condition evaluation can raise. */
  datatype EvalError =
    | NotText(key: string)       // `.lower()` on the `received_date` value (a datetime or None)
    | MissingDate                // `datetime.now() - None` in `less_than`
    | NotAnInteger(text: string) // `int(value)` in `less_than`

  /**
   * What evaluation left behind: the effects already produced, in order, and
   * the error that stopped it, if one did.
   */
  datatype Run<T> = Run(trace: seq<T>, failure: Option<EvalError>)
}
