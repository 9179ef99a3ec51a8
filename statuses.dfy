/** The status record the timeline API returns, reduced to the fields the digest
    reads. Engagement counts are never negative; a hidden follower count is -1. */
module Statuses {
  import opened Wrappers

  datatype Account = Account(acct: string, followersCount: int)

  datatype Status = Status(
    id: string,
    url: string,
    account: Account,
    reblogsCount: nat,
    favouritesCount: nat,
    repliesCount: nat,
    reblogged: bool,
    favourited: bool,
    bookmarked: bool,
    reblog: Option<Status>)
}
