/** The table rows (internal/model). Timestamps other than a message's
    creation time are not modelled; a password column holds a `Digest`,
    the symbolic result of hashing (bcrypt is not modelled). */
module Models {
  /** The stored hash of a password: hashing is injective and never yields
      the plain text itself, which is a different type. */
  datatype Digest = Hashed(plain: string)

  function Hash(password: string): (d: Digest)
    ensures d.plain == password
  {
    Hashed(password)
  }

  /** `bcrypt.CompareHashAndPassword` succeeds exactly for the hashed password. */
  predicate Matches(d: Digest, password: string) {
    d == Hash(password)
  }

  lemma HashInjective(p: string, q: string)
    requires Hash(p) == Hash(q)
    ensures p == q
  {
  }

  datatype User = User(id: int, username: string, password: Digest, nickname: string, avatar: string, email: string)

  datatype Friend = Friend(id: int, userID: int, friendID: int, remark: string, status: int)

  const FriendStatusPending := 0
  const FriendStatusAccepted := 1
  const FriendStatusRejected := 2

  datatype Group = Group(id: int, name: string, avatar: string, ownerID: int, description: string)

  datatype GroupMember = GroupMember(id: int, groupID: int, userID: int, role: int)

  const GroupRoleMember := 1
  const GroupRoleAdmin := 2
  const GroupRoleOwner := 3

  datatype Message = Message(id: int, fromUserID: int, toUserID: int, groupID: int, msgType: int,
                             content: string, status: int, createdAt: int)

  const MsgTypeText := 1
  const MsgTypeImage := 2
  const MsgTypeVoice := 3
  const MsgTypeVideo := 4

  const MsgStatusUnread := 0
  const MsgStatusRead := 1

  /** Column widths (characters) of the VARCHAR columns. */
  const UsernameWidth := 50
  const NicknameWidth := 100
  const AvatarWidth := 255
  const EmailWidth := 100
  const RemarkWidth := 100
  const GroupNameWidth := 100
  const DescriptionWidth := 500

  /** A user row whose text columns fit their declared widths. */
  predicate UserFits(u: User) {
    |u.username| <= UsernameWidth && |u.nickname| <= NicknameWidth
    && |u.avatar| <= AvatarWidth && |u.email| <= EmailWidth
  }

  predicate GroupFits(g: Group) {
    |g.name| <= GroupNameWidth && |g.avatar| <= AvatarWidth && |g.description| <= DescriptionWidth
  }
}
