/** Request bodies and the validation their binding tags declare
    (internal/types/request.go). String lengths count characters, as the
    validator counts runes. Whether a string is a well-formed e-mail address
    is a parameter `isEmail`. */
module Requests {
  import opened Models

  datatype RegisterRequest = RegisterRequest(username: string, password: string, nickname: string, email: string)
  datatype LoginRequest = LoginRequest(username: string, password: string)
  datatype UpdateUserRequest = UpdateUserRequest(nickname: string, avatar: string, email: string)
  datatype AddFriendRequest = AddFriendRequest(friendID: int, remark: string)
  datatype HandleFriendRequest = HandleFriendRequest(friendID: int, accept: bool)
  datatype SendMessageRequest = SendMessageRequest(toUserID: int, groupID: int, msgType: int, content: string)
  datatype CreateGroupRequest = CreateGroupRequest(name: string, avatar: string, description: string, memberIDs: seq<int>)
  datatype UpdateGroupRequest = UpdateGroupRequest(name: string, avatar: string, description: string)
  datatype AddGroupMemberRequest = AddGroupMemberRequest(userIDs: seq<int>)

  /** `omitempty,email`: the empty string is accepted, and any other
      address only when it is well formed. */
  function OptionalEmail(email: string, isEmail: string -> bool): (ok: bool)
    ensures email == "" ==> ok
    ensures email != "" ==> (ok <==> isEmail(email))
  {
    email == "" || isEmail(email)
  }

  /** `required,min=3,max=50` / `required,min=6,max=50` / `max=100` /
      `omitempty,email`. An accepted registration carries credentials that
      pass login validation and a profile that passes update validation,
      and its user name and nickname fit their columns. The e-mail has no
      length bound, so it may not fit the 100-character column. */
  function ValidRegister(r: RegisterRequest, isEmail: string -> bool): (ok: bool)
    ensures ok ==> ValidLogin(LoginRequest(r.username, r.password))
    ensures ok ==> ValidUpdateUser(UpdateUserRequest(r.nickname, "", r.email), isEmail)
    ensures ok ==> |r.username| <= UsernameWidth && |r.nickname| <= NicknameWidth
    ensures ok <==> 3 <= |r.username| <= 50 && 6 <= |r.password| <= 50 && |r.nickname| <= 100
                    && (r.email == "" || isEmail(r.email))
  {
    3 <= |r.username| <= 50 && 6 <= |r.password| <= 50 && |r.nickname| <= 100
    && OptionalEmail(r.email, isEmail)
  }

  /** Both fields `required`: at least one character each. */
  function ValidLogin(r: LoginRequest): (ok: bool)
    ensures ok <==> |r.username| >= 1 && |r.password| >= 1
  {
    r.username != "" && r.password != ""
  }

  /** `max=100` / `max=255` / `omitempty,email`: the all-empty update is
      accepted, and accepted nickname and avatar fit their columns. */
  function ValidUpdateUser(r: UpdateUserRequest, isEmail: string -> bool): (ok: bool)
    ensures r.nickname == "" && r.avatar == "" && r.email == "" ==> ok
    ensures ok ==> |r.nickname| <= NicknameWidth && |r.avatar| <= AvatarWidth
    ensures ok <==> |r.nickname| <= 100 && |r.avatar| <= 255 && (r.email == "" || isEmail(r.email))
  {
    |r.nickname| <= 100 && |r.avatar| <= 255 && OptionalEmail(r.email, isEmail)
  }

  /** `required,gt=0` on the friend id; `max=100` on the remark, which then
      fits its column. */
  function ValidAddFriend(r: AddFriendRequest): (ok: bool)
    ensures ok ==> |r.remark| <= RemarkWidth
    ensures ok <==> r.friendID >= 1 && |r.remark| <= 100
  {
    r.friendID > 0 && |r.remark| <= 100
  }

  /** `accept` is a plain Boolean: `false` is a valid value, and only the
      friend id is checked. */
  function ValidHandleFriend(r: HandleFriendRequest): (ok: bool)
    ensures ok <==> r.friendID >= 1
  {
    r.friendID > 0
  }

  /** The recipient is required even for a group message; the group id is
      not checked at all. The type is one of the four message kinds. */
  function ValidSendMessage(r: SendMessageRequest): (ok: bool)
    ensures ok <==> r.toUserID >= 1 && MsgTypeText <= r.msgType <= MsgTypeVideo && |r.content| >= 1
  {
    r.toUserID > 0 && r.msgType in {MsgTypeText, MsgTypeImage, MsgTypeVoice, MsgTypeVideo} && r.content != ""
  }

  /** `required,max=100` / `max=255` / `max=500`: an accepted creation has a
      name, fits the group columns, and its fields also pass update
      validation. */
  function ValidCreateGroup(r: CreateGroupRequest): (ok: bool)
    ensures ok ==> ValidUpdateGroup(UpdateGroupRequest(r.name, r.avatar, r.description))
    ensures ok ==> |r.name| >= 1 && GroupFits(Group(0, r.name, r.avatar, 0, r.description))
    ensures ok <==> 1 <= |r.name| <= 100 && |r.avatar| <= 255 && |r.description| <= 500
  {
    r.name != "" && |r.name| <= 100 && |r.avatar| <= 255 && |r.description| <= 500
  }

  /** `max=100` / `max=255` / `max=500`: every field may be empty, and an
      accepted update fits the group columns. */
  function ValidUpdateGroup(r: UpdateGroupRequest): (ok: bool)
    ensures r.name == "" && r.avatar == "" && r.description == "" ==> ok
    ensures ok <==> GroupFits(Group(0, r.name, r.avatar, 0, r.description))
  {
    |r.name| <= 100 && |r.avatar| <= 255 && |r.description| <= 500
  }

  /** `required,min=1`: at least one id. */
  function ValidAddGroupMember(r: AddGroupMemberRequest): (ok: bool)
    ensures ok <==> r.userIDs != []
  {
    |r.userIDs| >= 1
  }
}
