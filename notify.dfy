/**
 * `send_open_notification`: the call with its seven arguments, the three
 * header values it sets on the mail message, and whether the mail library
 * refuses one of them. The message is built before the guarded SMTP block,
 * so a refused header escapes the function instead of being swallowed.
 */
module Notify {
  import opened PyText

  /** A call of `send_open_notification` with its seven arguments. */
  datatype Notification = Notification(
    fromEmail: string,
    senderName: string,
    senderPass: string,
    openedBy: string,
    subject: string,
    ip: string,
    ua: string)

  /** The fixed text in front of the message id in the `Subject` header. */
  const SubjectLead: string := "\U{1F4EC} Email Opened by "

  /** `msg['Subject']`. */
  function SubjectHeader(n: Notification): string {
    SubjectLead + n.openedBy + " | " + n.subject
  }

  /** `msg['From']`. */
  function FromHeader(n: Notification): string {
    n.senderName + " <" + n.fromEmail + ">"
  }

  /** `msg['To']`. */
  function ToHeader(n: Notification): string {
    n.fromEmail
  }

  /**
   * Setting a header raises `ValueError` when its value is more than one line
   * for `str.splitlines()`; the three headers are set in this order and the
   * first refusal ends the call.
   */
  predicate MessageRejected(n: Notification) {
    || |SplitLines(SubjectHeader(n))| > 1
    || |SplitLines(FromHeader(n))| > 1
    || |SplitLines(ToHeader(n))| > 1
  }

  /**
   * The message is refused exactly when the message id, the sender's name or
   * the sender's address holds any line boundary, or the subject holds one
   * that more text follows. Password, IP and user agent never matter here.
   */
  lemma RejectedExactly(n: Notification)
    ensures MessageRejected(n) <==>
              || HasLineBoundary(n.openedBy) || InnerBreak(n.subject)
              || HasLineBoundary(n.senderName) || HasLineBoundary(n.fromEmail)
  {
    assert !HasLineBoundary(SubjectLead);
    assert !HasLineBoundary(" | ") && !HasLineBoundary(" <") && !HasLineBoundary(">");
    SeveralLines(SubjectHeader(n));
    SeveralLines(FromHeader(n));
    SeveralLines(ToHeader(n));
    var rest := n.openedBy + " | " + n.subject;
    assert SubjectHeader(n) == SubjectLead + rest;
    InnerBreakAfterPlain(SubjectLead, rest);
    InnerBreakAroundField(n.openedBy, " | ", n.subject);
    assert FromHeader(n) == n.senderName + " <" + (n.fromEmail + ">");
    InnerBreakAroundField(n.senderName, " <", n.fromEmail + ">");
    assert n.fromEmail + ">" + "" == n.fromEmail + ">";
    InnerBreakAroundField(n.fromEmail, ">", "");
  }
}
