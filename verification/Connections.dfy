/** What a pooled connection and an open transaction can come to, as every repository meets it. */
module Connections {

  /** What became of the connection a call worked on. */
  datatype Fate = NotAcquired | Released | Destroyed

  /** The reply to a commit: confirmed, answered with a rollback, or not received. */
  datatype CommitReply = Acknowledged | AnsweredAsRollback | CommitLost(applied: bool)

  datatype RollbackReply = RolledBack | AlreadyClosed | RollbackFailed

  /** The commit made the transaction's changes permanent, whether or not that is known. */
  predicate TookEffect(reply: CommitReply)
  {
    reply.Acknowledged? || (reply.CommitLost? && reply.applied)
  }
}
