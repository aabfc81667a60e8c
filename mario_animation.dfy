/**
  * The player's sprite selector: which of the twelve pre-built animation
  * handles is drawn for a (state, size level) pair, and how large its first
  * frame is once scaled for display.
  */
module MarioAnimation {
  import opened Wrappers

  /** The player states the selector switches on. */
  datatype State = Walking | Standing | Jumping | FlagSlide | Dying | Pose

  /** The twelve animation handles, one per static field of the selector. */
  datatype Anim =
    | Walk | Stand | Jump | Dead
    | WalkBig | StandBig | JumpBig | CrouchBig
    | FlagSlideSmall | FlagSlideBig | PoseSmall | PoseBig

  datatype PlayMode = Normal | LoopPingPong

  /** Where a handle's frames come from in the atlas: the one region of a name, or all regions of a name. */
  datatype Frames = OneRegion(name: string) | AllRegions(name: string)

  /** An animation handle as the constructor builds it. */
  datatype Handle = Handle(frames: Frames, frameDuration: real, mode: PlayMode)

  /** Pixel size of an atlas region. */
  datatype FrameSize = FrameSize(width: nat, height: nat)

  /** The size of the first region of each name in the texture atlas. */
  type Atlas = string -> FrameSize

  datatype Vector2 = Vector2(x: real, y: real)

  /** The handles the constructor builds; the small pose borrows the small jump art. */
  function HandleOf(a: Anim): (h: Handle)
  {
    match a
    case Stand => Handle(OneRegion("mario_mini_idle"), 0.0, Normal)
    case Walk => Handle(AllRegions("mario_mini_walking"), 0.1, LoopPingPong)
    case Jump => Handle(OneRegion("mario_mini_jump"), 0.0, Normal)
    case Dead => Handle(OneRegion("mario_mini_dead"), 0.0, Normal)
    case StandBig => Handle(OneRegion("mario_big_idle"), 0.0, Normal)
    case WalkBig => Handle(AllRegions("mario_big_walking"), 0.1, LoopPingPong)
    case JumpBig => Handle(OneRegion("mario_big_jump"), 0.0, Normal)
    case CrouchBig => Handle(OneRegion("mario_big_crouch"), 0.0, Normal)
    case FlagSlideBig => Handle(AllRegions("mario_big_flagslide"), 1.0, Normal)
    case FlagSlideSmall => Handle(AllRegions("mario_mini_flagslide"), 1.0, Normal)
    case PoseBig => Handle(AllRegions("mario_big_pose"), 3.5, Normal)
    case PoseSmall => Handle(AllRegions("mario_mini_jump"), 3.5, Normal)
  }

  /** The constructor builds twelve different handles. */
  lemma HandlesDistinct(a: Anim, b: Anim)
    requires a != b
    ensures HandleOf(a) != HandleOf(b)
  {
  }

  /** Size of a handle's first frame (key frame at time 0) multiplied by the display scale. */
  function Scaled(atlas: Atlas, scale: real, a: Anim): (v: Vector2)
  {
    var f := atlas(HandleOf(a).frames.name);
    Vector2(f.width as real * scale, f.height as real * scale)
  }

  // ---------------------------------------------------------------------
  // getAnimation: a switch whose case arms have no `break`
  // ---------------------------------------------------------------------

  /** Index of the `default` arm; the case arms come before it, in source order. */
  const DefaultArm: nat := 6

  /** Position of the `case s:` label in the switch. */
  function CaseLabel(s: State): (i: nat)
    ensures i < DefaultArm
  {
    match s
    case Walking => 0
    case Standing => 1
    case Jumping => 2
    case FlagSlide => 3
    case Dying => 4
    case Pose => 5
  }

  /** `if (level == 1) return small; else if (level == 2) return big;` -- returns nothing otherwise. */
  function SizedArm(level: int, small: Anim, big: Anim): Option<Anim>
  {
    if level == 1 then Some(small) else if level == 2 then Some(big) else None
  }

  /** What the statements of case arm `i` return, or None when control runs off the end of the arm. */
  function ArmBody(i: nat, level: int): Option<Anim>
    requires i < DefaultArm
  {
    if i == 0 then SizedArm(level, Walk, WalkBig)
    else if i == 1 then SizedArm(level, Stand, StandBig)
    else if i == 2 then SizedArm(level, Jump, JumpBig)
    else if i == 3 then SizedArm(level, FlagSlideSmall, FlagSlideBig)
    else if i == 4 then Some(Dead)
    else SizedArm(level, PoseSmall, PoseBig)
  }

  /** Execute the switch from arm `i` on: an arm that returns nothing falls through into the next one. */
  function RunFrom(i: nat, level: int): (a: Anim)
    requires i <= DefaultArm
    ensures a != CrouchBig
    decreases DefaultArm - i
  {
    if i == DefaultArm then Stand
    else match ArmBody(i, level)
      case Some(a) => a
      case None => RunFrom(i + 1, level)
  }

  /** The handle to draw for `state` at size `level`; the big crouch handle is built but never chosen. */
  function GetAnimation(state: State, level: int): (a: Anim)
    ensures a != CrouchBig
  {
    RunFrom(CaseLabel(state), level)
  }

  /** The small-form handle of each state (the dying handle has no big form). */
  function SmallForm(s: State): Anim
  {
    match s
    case Walking => Walk
    case Standing => Stand
    case Jumping => Jump
    case FlagSlide => FlagSlideSmall
    case Dying => Dead
    case Pose => PoseSmall
  }

  /** The big-form handle of each state. */
  function BigForm(s: State): Anim
  {
    match s
    case Walking => WalkBig
    case Standing => StandBig
    case Jumping => JumpBig
    case FlagSlide => FlagSlideBig
    case Dying => Dead
    case Pose => PoseBig
  }

  /** The selection table written out state by state, without fall-through. */
  function SelectionTable(s: State, level: int): Anim
  {
    if level == 1 then SmallForm(s)
    else if level == 2 then BigForm(s)
    else if s == Pose then Stand
    else Dead
  }

  /** Running the switch from arm `i` skips arms that return nothing for this level. */
  lemma {:induction false} RunFromOutsideLevels(i: nat, level: int)
    requires i <= DefaultArm
    requires level != 1 && level != 2
    ensures RunFrom(i, level) == (if i <= 4 then Dead else Stand)
    decreases DefaultArm - i
  {
    if i < DefaultArm && i != 4 {
      RunFromOutsideLevels(i + 1, level);
    }
  }

  /** The switch with its fall-through computes exactly the table. */
  lemma {:induction false} AnimationTable(s: State, level: int)
    ensures GetAnimation(s, level) == SelectionTable(s, level)
  {
    if level != 1 && level != 2 {
      RunFromOutsideLevels(CaseLabel(s), level);
    }
  }

  /** Levels 1 and 2 pick the small and the big form of the state's handle. */
  lemma SizedSelection(s: State, level: int)
    requires level == 1 || level == 2
    ensures GetAnimation(s, level) == if level == 1 then SmallForm(s) else BigForm(s)
    ensures s != Dying ==> GetAnimation(s, 1) != GetAnimation(s, 2)
  {
    AnimationTable(s, 1);
    AnimationTable(s, 2);
  }

  /** The dying handle is chosen for every level. */
  lemma DyingIgnoresLevel(level: int)
    ensures GetAnimation(Dying, level) == Dead
  {
    AnimationTable(Dying, level);
  }

  /**
    * For a level other than 1 and 2 the four arms before `case Dying` fall into it and
    * return the dying handle; the pose arm falls into `default` and returns the small standing handle.
    */
  lemma FallThrough(s: State, level: int)
    requires level != 1 && level != 2
    ensures GetAnimation(s, level) == if s == Pose then Stand else Dead
  {
    AnimationTable(s, level);
  }

  /** Every handle except the big crouch is the choice for some state and level. */
  lemma ElevenHandlesReachable(a: Anim)
    requires a != CrouchBig
    ensures exists s: State, level: int :: GetAnimation(s, level) == a
  {
    var (s, level) := match a
      case Walk => (Walking, 1)
      case Stand => (Standing, 1)
      case Jump => (Jumping, 1)
      case Dead => (Dying, 1)
      case WalkBig => (Walking, 2)
      case StandBig => (Standing, 2)
      case JumpBig => (Jumping, 2)
      case FlagSlideSmall => (FlagSlide, 1)
      case FlagSlideBig => (FlagSlide, 2)
      case PoseSmall => (Pose, 1)
      case PoseBig => (Pose, 2);
    AnimationTable(s, level);
  }

  // ---------------------------------------------------------------------
  // getDimensions: every case arm ends in `break`
  // ---------------------------------------------------------------------

  /** The handle whose size case arm `s` returns, or None when it reaches its `break`. */
  function DimensionArm(s: State, level: int): Option<Anim>
  {
    match s
    case Walking => SizedArm(level, Walk, WalkBig)
    case Standing => SizedArm(level, Stand, StandBig)
    case Jumping => SizedArm(level, Jump, JumpBig)
    case Pose => SizedArm(level, PoseSmall, PoseBig)
    case FlagSlide => SizedArm(level, FlagSlideSmall, FlagSlideBig)
    case Dying => Some(Dead)
  }

  /** Scaled first-frame size for `state` at `level`; a `break` leads to the statement after the switch, the dying size. */
  function GetDimensions(atlas: Atlas, scale: real, state: State, level: int): (v: Vector2)
  {
    match DimensionArm(state, level)
    case Some(a) => Scaled(atlas, scale, a)
    case None => Scaled(atlas, scale, Dead)
  }

  /** For levels 1 and 2 the size is that of the handle the selector draws. */
  lemma DimensionsMatchAnimation(atlas: Atlas, scale: real, s: State, level: int)
    requires level == 1 || level == 2
    ensures GetDimensions(atlas, scale, s, level) == Scaled(atlas, scale, GetAnimation(s, level))
  {
    AnimationTable(s, level);
  }

  /**
    * For any other level every state gets the dying size -- including the pose, whose
    * drawn handle is then the small standing one.
    */
  lemma DimensionsFallback(atlas: Atlas, scale: real, s: State, level: int)
    requires level != 1 && level != 2
    ensures GetDimensions(atlas, scale, s, level) == Scaled(atlas, scale, Dead)
    ensures GetDimensions(atlas, scale, s, level) == Scaled(atlas, scale, GetAnimation(s, level)) || s == Pose
  {
    FallThrough(s, level);
  }

  /** The small pose reuses the small jump art, so it is sized like the small jump. */
  lemma SmallPoseSizedAsJump(atlas: Atlas, scale: real)
    ensures GetDimensions(atlas, scale, Pose, 1) == GetDimensions(atlas, scale, Jumping, 1)
  {
  }

  /** With a positive scale and non-empty regions every size is strictly positive. */
  lemma DimensionsPositive(atlas: Atlas, scale: real, s: State, level: int)
    requires scale > 0.0
    requires forall a: Anim :: atlas(HandleOf(a).frames.name).width > 0 && atlas(HandleOf(a).frames.name).height > 0
    ensures GetDimensions(atlas, scale, s, level).x > 0.0 && GetDimensions(atlas, scale, s, level).y > 0.0
  {
    var a := match DimensionArm(s, level) case Some(a) => a case None => Dead;
    var f := atlas(HandleOf(a).frames.name);
    assert f.width > 0 && f.height > 0;
    assert GetDimensions(atlas, scale, s, level) == Scaled(atlas, scale, a);
  }

  // ---------------------------------------------------------------------
  // getFrameWidth / getFrameHeight
  // ---------------------------------------------------------------------

  /** Frame width: the walking width of size 1 for level 1, of size 2 for every other level; `width` is ignored. */
  function GetFrameWidth(atlas: Atlas, scale: real, level: int, width: real): (w: real)
    ensures w == GetDimensions(atlas, scale, Walking, if level == 1 then 1 else 2).x
  {
    if level == 1 then Scaled(atlas, scale, Walk).x else Scaled(atlas, scale, WalkBig).x
  }

  /** Frame height, chosen like the width; `height` is ignored. */
  function GetFrameHeight(atlas: Atlas, scale: real, level: int, height: real): (h: real)
    ensures h == GetDimensions(atlas, scale, Walking, if level == 1 then 1 else 2).y
  {
    if level == 1 then Scaled(atlas, scale, Walk).y else Scaled(atlas, scale, WalkBig).y
  }

  /**
    * Outside levels 1 and 2 the frame size is the big walking size, while getDimensions
    * gives the dying size for the same walking state.
    */
  lemma FrameSizeOutsideLevels(atlas: Atlas, scale: real, level: int, width: real, height: real)
    requires level != 1 && level != 2
    ensures GetFrameWidth(atlas, scale, level, width) == Scaled(atlas, scale, WalkBig).x
    ensures GetFrameHeight(atlas, scale, level, height) == Scaled(atlas, scale, WalkBig).y
    ensures GetDimensions(atlas, scale, Walking, level) == Scaled(atlas, scale, Dead)
  {
  }
}
