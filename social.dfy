/**
 * The social-media toy: users who follow each other and write posts that
 * collect likes. Users and posts are objects updated in place.
 */
module Social {
  import Lists

  class User {
    const name: string
    const email: string
    const password: string
    var posts: seq<Post>
    var following: seq<User>

    /** A new user holds the given credentials and has no posts and follows nobody. */
    constructor (name: string, email: string, password: string)
      ensures this.name == name && this.email == email && this.password == password
      ensures posts == [] && following == []
    {
      this.name := name;
      this.email := email;
      this.password := password;
      posts := [];
      following := [];
    }
  }

  class Post {
    const author: User
    const content: string
    /** The creation time, an opaque value supplied by the caller. */
    const createdAt: int
    var likes: int

    /** A new post by `author` with the given content and no likes. */
    constructor (author: User, content: string, createdAt: int)
      ensures this.author == author && this.content == content && this.createdAt == createdAt
      ensures likes == 0
    {
      this.author := author;
      this.content := content;
      this.createdAt := createdAt;
      likes := 0;
    }
  }

  method CreateUser(name: string, email: string, password: string) returns (user: User)
    ensures fresh(user)
    ensures user.name == name && user.email == email && user.password == password
    ensures user.posts == [] && user.following == []
  {
    user := new User(name, email, password);
  }

  /** Appends the target to the follow list; a user already followed is appended again. */
  method FollowUser(currentUser: User, userToFollow: User)
    modifies currentUser`following
    ensures currentUser.following == old(currentUser.following) + [userToFollow]
  {
    currentUser.following := currentUser.following + [userToFollow];
  }

  /** Removes the first occurrence of the target from the follow list, if there is one. */
  method UnfollowUser(currentUser: User, userToUnfollow: User)
    modifies currentUser`following
    ensures currentUser.following == Lists.RemoveFirst(old(currentUser.following), userToUnfollow)
  {
    var index := Lists.IndexOf(currentUser.following, userToUnfollow);
    if index != -1 {
      currentUser.following := Lists.RemoveAt(currentUser.following, index);
    }
  }

  /** Following a user one did not follow and then unfollowing them restores the follow list. */
  method FollowThenUnfollow(currentUser: User, other: User)
    requires other !in currentUser.following
    modifies currentUser`following
    ensures currentUser.following == old(currentUser.following)
  {
    FollowUser(currentUser, other);
    UnfollowUser(currentUser, other);
    Lists.AppendThenRemoveFirst(old(currentUser.following), other);
  }

  /** Creates a post by `user` and appends it to the user's posts. */
  method CreatePost(user: User, content: string, createdAt: int) returns (post: Post)
    modifies user`posts
    ensures fresh(post)
    ensures post.author == user && post.content == content && post.createdAt == createdAt && post.likes == 0
    ensures user.posts == old(user.posts) + [post]
  {
    post := new Post(user, content, createdAt);
    user.posts := user.posts + [post];
  }

  /** Adds exactly one like. */
  method LikePost(post: Post)
    modifies post`likes
    ensures post.likes == old(post.likes) + 1
  {
    post.likes := post.likes + 1;
  }
}
