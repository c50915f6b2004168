/** The engine loop (engine/engine.cpp, engine/engine.h): input edge detection over the
    E_InputState singleton, the key and mouse queries, the frame cap, the dt clamp of a
    tick and the deferred scene load. Window, timing and rendering calls are left to
    the caller: what they would report (the cursor, the buttons and keys held, the time
    since the last frame, whether the window should close) comes in as parameters. */
module Engine {
  import opened Geometry
  import opened World
  import opened Broadphase

  /** The size of the key arrays of E_InputState. */
  const KEY_COUNT: int := 350

  /** The largest dt a tick hands to the world. */
  const MAX_DT: real := 0.1

  /** What one poll reports for a button or key: down now but not before, or up now
      but down before. */
  datatype Edges = Edges(pressed: bool, released: bool)

  /** The edge rule of processInput for one button or key, from whether it is down now
      and whether it was down at the previous poll. */
  function Edge(cur: bool, prev: bool): (r: Edges)
    ensures !(r.pressed && r.released)
    ensures r.pressed ==> cur
    ensures r.released ==> !cur
    ensures r.pressed || r.released <==> cur != prev
  {
    Edges(cur && !prev, !cur && prev)
  }

  /** E_InputState: the mouse and the 350 keys as seen at the last poll. */
  class InputState {
    var mouseX: real
    var mouseY: real
    var leftDown: bool
    var rightDown: bool
    var leftPressed: bool
    var leftReleased: bool
    var rightPressed: bool
    var rightReleased: bool
    var prevLeftDown: bool
    var prevRightDown: bool
    const keysDown: array<bool>
    const keysPressed: array<bool>
    const keysReleased: array<bool>
    const prevKeysDown: array<bool>

    /** Four separate arrays of 350 entries. */
    ghost predicate Valid()
      reads this
    {
      && keysDown.Length == KEY_COUNT && keysPressed.Length == KEY_COUNT
      && keysReleased.Length == KEY_COUNT && prevKeysDown.Length == KEY_COUNT
      && keysDown != keysPressed && keysDown != keysReleased && keysDown != prevKeysDown
      && keysPressed != keysReleased && keysPressed != prevKeysDown && keysReleased != prevKeysDown
    }

    /** The keys right after a poll (or all zero): pressed means down, released means
        up, and the previous state is the current one. */
    ghost predicate KeysSettled()
      requires Valid()
      reads this, keysDown, keysPressed, keysReleased, prevKeysDown
    {
      forall k :: 0 <= k < KEY_COUNT ==>
        (keysPressed[k] ==> keysDown[k]) && (keysReleased[k] ==> !keysDown[k]) && prevKeysDown[k] == keysDown[k]
    }

    /** The whole state right after a poll (or all zero): the keys, and the same rules
        for both mouse buttons. */
    ghost predicate Settled()
      requires Valid()
      reads this, keysDown, keysPressed, keysReleased, prevKeysDown
    {
      && (leftPressed ==> leftDown) && (leftReleased ==> !leftDown) && prevLeftDown == leftDown
      && (rightPressed ==> rightDown) && (rightReleased ==> !rightDown) && prevRightDown == rightDown
      && KeysSettled()
    }

    /** What a poll with these readings leaves behind, given the previous button and key
        states: the mouse and the buttons as read, and every edge by the rule of Edge. */
    ghost predicate PolledFrom(mx: real, my: real, curLeft: bool, curRight: bool, keys: seq<bool>,
                               prevLeft: bool, prevRight: bool, prevKeys: seq<bool>)
      requires Valid() && |keys| == KEY_COUNT && |prevKeys| == KEY_COUNT
      reads this, keysPressed, keysReleased
    {
      && mouseX == mx && mouseY == my && leftDown == curLeft && rightDown == curRight
      && Edges(leftPressed, leftReleased) == Edge(curLeft, prevLeft)
      && Edges(rightPressed, rightReleased) == Edge(curRight, prevRight)
      && forall k :: 0 <= k < KEY_COUNT ==>
        Edges(keysPressed[k], keysReleased[k]) == Edge(keys[k], prevKeys[k])
    }

    /** The zeroed singleton the world starts with. */
    constructor ()
      ensures Valid() && Settled()
      ensures fresh(keysDown) && fresh(keysPressed) && fresh(keysReleased) && fresh(prevKeysDown)
      ensures !leftDown && !rightDown && !leftPressed && !rightPressed
      ensures forall k :: 0 <= k < KEY_COUNT ==> !keysDown[k] && !keysPressed[k] && !keysReleased[k]
    {
      mouseX, mouseY := 0.0, 0.0;
      leftDown, rightDown := false, false;
      leftPressed, leftReleased, rightPressed, rightReleased := false, false, false, false;
      prevLeftDown, prevRightDown := false, false;
      keysDown := new bool[KEY_COUNT](_ => false);
      keysPressed := new bool[KEY_COUNT](_ => false);
      keysReleased := new bool[KEY_COUNT](_ => false);
      prevKeysDown := new bool[KEY_COUNT](_ => false);
    }

    /** processInput: the edges of both buttons and of every key against the previous
        poll, then the current state becomes the previous one. `keys[k]` is whether key
        k is held. */
    method Poll(mx: real, my: real, curLeft: bool, curRight: bool, keys: seq<bool>)
      requires Valid() && |keys| == KEY_COUNT
      modifies this, keysDown, keysPressed, keysReleased, prevKeysDown
      ensures Valid() && Settled()
      ensures Edges(leftPressed, leftReleased) == Edge(curLeft, old(prevLeftDown))
      ensures Edges(rightPressed, rightReleased) == Edge(curRight, old(prevRightDown))
      ensures mouseX == mx && mouseY == my && leftDown == curLeft && rightDown == curRight
      ensures forall k :: 0 <= k < KEY_COUNT ==>
        Edges(keysPressed[k], keysReleased[k]) == Edge(keys[k], old(prevKeysDown[k]))
      ensures keysDown[..] == keys && prevKeysDown[..] == keys
      ensures PolledFrom(mx, my, curLeft, curRight, keys, old(prevLeftDown), old(prevRightDown), old(prevKeysDown[..]))
    {
      var left := Edge(curLeft, prevLeftDown);
      var right := Edge(curRight, prevRightDown);
      leftPressed, leftReleased := left.pressed, left.released;
      rightPressed, rightReleased := right.pressed, right.released;
      mouseX, mouseY := mx, my;
      leftDown, rightDown := curLeft, curRight;
      prevLeftDown, prevRightDown := curLeft, curRight;
      PollKeys(keys);
    }

    /** The key loop of processInput. */
    method PollKeys(keys: seq<bool>)
      requires Valid() && |keys| == KEY_COUNT
      modifies keysDown, keysPressed, keysReleased, prevKeysDown
      ensures KeysSettled()
      ensures forall k :: 0 <= k < KEY_COUNT ==>
        Edges(keysPressed[k], keysReleased[k]) == Edge(keys[k], old(prevKeysDown[k]))
      ensures keysDown[..] == keys && prevKeysDown[..] == keys
    {
      var key := 0;
      while key < KEY_COUNT
        invariant 0 <= key <= KEY_COUNT
        invariant forall k :: 0 <= k < key ==>
          Edges(keysPressed[k], keysReleased[k]) == Edge(keys[k], old(prevKeysDown[k]))
        invariant forall k :: 0 <= k < key ==> keysDown[k] == keys[k] && prevKeysDown[k] == keys[k]
        invariant forall k :: key <= k < KEY_COUNT ==> prevKeysDown[k] == old(prevKeysDown[k])
      {
        var isDown := keys[key];
        var e := Edge(isDown, prevKeysDown[key]);
        keysPressed[key] := e.pressed;
        keysReleased[key] := e.released;
        keysDown[key] := isDown;
        prevKeysDown[key] := isDown;
        key := key + 1;
      }
    }
  }

  /** The frame time a cap of n frames per second asks for: none for n <= 0, otherwise
      1 / n seconds, so that n frames take one second. */
  function FrameTime(n: int): (t: real)
    ensures t >= 0.0
    ensures n <= 0 ==> t == 0.0
    ensures n > 0 ==> t > 0.0 && t * n as real == 1.0
  {
    if n <= 0 then 0.0 else 1.0 / n as real
  }

  /** The dt a tick passes on: the measured delta, cut to 0.1 when it is larger. */
  function ClampDt(delta: real): (dt: real)
    ensures dt <= MAX_DT && dt <= delta
    ensures dt == delta || dt == MAX_DT
  {
    if delta > MAX_DT then MAX_DT else delta
  }

  class Engine {
    /** The E_InputState singleton, once the world has set it. */
    var input: InputState?
    var targetFrameTime: real
    var vsync: bool
    var currentDt: real
    /** The names of the registered scenes; what their init functions do to the world
        is not part of this model. */
    var scenes: set<string>
    var currentSceneName: string
    var pendingSceneLoad: string
    /** The scene init functions run so far, in order. */
    ghost var initRuns: seq<string>
    const ecs: ECSWorld

    ghost predicate Valid()
      reads this, ecs, input
    {
      ecs.Valid() && (input != null ==> input.Valid())
    }

    /** Engine(): an empty world, no input state yet, no frame cap, no scene. */
    constructor ()
      ensures Valid() && input == null
      ensures targetFrameTime == 0.0 && !vsync && currentDt == 0.0
      ensures scenes == {} && currentSceneName == "" && pendingSceneLoad == "" && initRuns == []
    {
      input := null;
      targetFrameTime := 0.0;
      vsync := false;
      currentDt := 0.0;
      scenes := {};
      currentSceneName := "";
      pendingSceneLoad := "";
      initRuns := [];
      ecs := new ECSWorld(map[], []);
    }

    /** The world's init sets a zeroed E_InputState. */
    method InitInput()
      modifies this`input
      ensures input != null && fresh(input) && input.Valid() && input.Settled()
    {
      input := new InputState();
    }

    // -------------------------------------------------------------------------
    // Queries
    // -------------------------------------------------------------------------

    /** isKeyDown: false for a key outside [0, 350) or without the input state. */
    function IsKeyDown(key: int): (r: bool)
      requires input != null ==> input.Valid()
      reads this, input, if input == null then {} else {input.keysDown}
      ensures r ==> 0 <= key < KEY_COUNT && input != null
      ensures 0 <= key < KEY_COUNT && input != null ==> r == input.keysDown[key]
    {
      if key < 0 || key >= KEY_COUNT then false
      else if input != null then input.keysDown[key]
      else false
    }

    /** isKeyPressed: false for a key outside [0, 350) or without the input state. */
    function IsKeyPressed(key: int): (r: bool)
      requires input != null ==> input.Valid()
      reads this, input, if input == null then {} else {input.keysPressed}
      ensures r ==> 0 <= key < KEY_COUNT && input != null
      ensures 0 <= key < KEY_COUNT && input != null ==> r == input.keysPressed[key]
    {
      if key < 0 || key >= KEY_COUNT then false
      else if input != null then input.keysPressed[key]
      else false
    }

    /** isKeyReleased: false for a key outside [0, 350) or without the input state. */
    function IsKeyReleased(key: int): (r: bool)
      requires input != null ==> input.Valid()
      reads this, input, if input == null then {} else {input.keysReleased}
      ensures r ==> 0 <= key < KEY_COUNT && input != null
      ensures 0 <= key < KEY_COUNT && input != null ==> r == input.keysReleased[key]
    {
      if key < 0 || key >= KEY_COUNT then false
      else if input != null then input.keysReleased[key]
      else false
    }

    /** After a poll the three key queries agree: a key is never both pressed and
        released, a pressed key is down and a released key is up. */
    lemma KeyQueriesAgree(key: int)
      requires input != null && input.Valid() && input.Settled()
      ensures !(IsKeyPressed(key) && IsKeyReleased(key))
      ensures IsKeyPressed(key) ==> IsKeyDown(key)
      ensures IsKeyReleased(key) ==> !IsKeyDown(key)
    {
      if 0 <= key < KEY_COUNT {
        assert input.keysPressed[key] ==> input.keysDown[key];
        assert input.keysReleased[key] ==> !input.keysDown[key];
      }
    }

    /** isMouseButtonDown: false outside [0, 2) or without the input state; button 0
        is the left button and 1 the right one. */
    function IsMouseButtonDown(btn: int): (r: bool)
      reads this, input
      ensures r ==> (btn == 0 || btn == 1) && input != null
      ensures input != null && btn == 0 ==> r == input.leftDown
      ensures input != null && btn == 1 ==> r == input.rightDown
    {
      if btn < 0 || btn >= 2 then false
      else if input != null then (if btn == 0 then input.leftDown else input.rightDown)
      else false
    }

    /** isMouseButtonPressed: false outside [0, 2) or without the input state; button 0
        is the left button and 1 the right one. */
    function IsMouseButtonPressed(btn: int): (r: bool)
      reads this, input
      ensures r ==> (btn == 0 || btn == 1) && input != null
      ensures input != null && btn == 0 ==> r == input.leftPressed
      ensures input != null && btn == 1 ==> r == input.rightPressed
    {
      if btn < 0 || btn >= 2 then false
      else if input != null then (if btn == 0 then input.leftPressed else input.rightPressed)
      else false
    }

    // -------------------------------------------------------------------------
    // Frame cap
    // -------------------------------------------------------------------------

    /** SetVSync: the flag; the swap interval it sets is a window call. */
    method SetVSync(turnOn: bool)
      modifies this`vsync
      ensures vsync == turnOn
    {
      vsync := turnOn;
    }

    /** MaxFPS: the frame time of the cap, and a positive cap turns VSync off. */
    method MaxFPS(maxFPS: int)
      modifies this`targetFrameTime, this`vsync
      ensures targetFrameTime == FrameTime(maxFPS)
      ensures vsync == (old(vsync) && maxFPS <= 0)
    {
      if maxFPS <= 0 {
        targetFrameTime := 0.0;
      } else {
        targetFrameTime := 1.0 / maxFPS as real;
      }
      if maxFPS > 0 && vsync {
        SetVSync(false);
      }
    }

    // -------------------------------------------------------------------------
    // Scenes
    // -------------------------------------------------------------------------

    /** registerScene: the name now has an init function. */
    method RegisterScene(name: string)
      modifies this`scenes
      ensures scenes == old(scenes) + {name}
    {
      scenes := scenes + {name};
    }

    /** loadScene: an unknown name changes nothing; otherwise the scene becomes current,
        its init runs now, and the same load is also queued for the end of the tick. */
    method LoadScene(name: string)
      modifies this`currentSceneName, this`pendingSceneLoad, this`initRuns
      ensures name !in scenes ==>
        currentSceneName == old(currentSceneName) && pendingSceneLoad == old(pendingSceneLoad) && initRuns == old(initRuns)
      ensures name in scenes ==>
        currentSceneName == name && pendingSceneLoad == name && initRuns == old(initRuns) + [name]
    {
      if name !in scenes {
        return;
      }
      currentSceneName := name;
      initRuns := initRuns + [name];
      pendingSceneLoad := name;
    }

    /** reloadScene: queues the current scene, if there is one. */
    method ReloadScene()
      modifies this`pendingSceneLoad
      ensures currentSceneName != "" ==> pendingSceneLoad == currentSceneName
      ensures currentSceneName == "" ==> pendingSceneLoad == old(pendingSceneLoad)
    {
      if currentSceneName != "" {
        pendingSceneLoad := currentSceneName;
      }
    }

    /** _performLoadScene: an unknown name changes nothing; otherwise the scene becomes
        current and its init runs. */
    method PerformLoadScene(name: string)
      modifies this`currentSceneName, this`initRuns
      ensures name !in scenes ==> currentSceneName == old(currentSceneName) && initRuns == old(initRuns)
      ensures name in scenes ==> currentSceneName == name && initRuns == old(initRuns) + [name]
    {
      if name !in scenes {
        return;
      }
      currentSceneName := name;
      initRuns := initRuns + [name];
    }

    // -------------------------------------------------------------------------
    // The tick
    // -------------------------------------------------------------------------

    /** The running part of tick: the input is polled, the world is updated with dt, and
        a pending scene load is performed and cleared. */
    method RunFrame(dt: real, mx: real, my: real, curLeft: bool, curRight: bool, keys: seq<bool>, m: MathLib)
      requires Valid() && input != null && ValidMath(m) && |keys| == KEY_COUNT
      modifies this`currentSceneName, this`initRuns, this`pendingSceneLoad
      modifies ecs, input, input.keysDown, input.keysPressed, input.keysReleased, input.prevKeysDown
      ensures Valid()
      ensures ecs.order == old(ecs.order)
      ensures && ecs.grid == BuildGrid(old(ecs.entities), ecs.order, dt, m)
              && ecs.bigBodies == BigBodies(old(ecs.entities), ecs.order, m)
              && ecs.events == []
      ensures Collided(ecs.entities, ecs.testedPairs, ecs.resolved, FallAll(MoveAll(old(ecs.entities), dt), dt), old(ecs.events), m)
      ensures input.Settled() && input.keysDown[..] == keys
      ensures input.PolledFrom(mx, my, curLeft, curRight, keys,
                               old(input.prevLeftDown), old(input.prevRightDown), old(input.prevKeysDown[..]))
      ensures pendingSceneLoad == ""
      ensures old(pendingSceneLoad) != "" && old(pendingSceneLoad) in scenes ==>
        currentSceneName == old(pendingSceneLoad) && initRuns == old(initRuns) + [old(pendingSceneLoad)]
      ensures old(pendingSceneLoad) == "" || old(pendingSceneLoad) !in scenes ==>
        currentSceneName == old(currentSceneName) && initRuns == old(initRuns)
    {
      input.Poll(mx, my, curLeft, curRight, keys);
      ghost var swept := ecs.Update(dt, m);
      if pendingSceneLoad != "" {
        PerformLoadScene(pendingSceneLoad);
        pendingSceneLoad := "";
      }
    }

    /** tick: false, with nothing changed, once the window should close; otherwise the
        clamped dt is recorded, the input is polled, the world is updated with that dt
        (the grid is built from the entities as they were, then they move, fall and
        collide, and the events are purged), and a pending scene load is performed and
        cleared. The frame cap and the registered scenes never change. */
    method Tick(shouldClose: bool, delta: real, mx: real, my: real, curLeft: bool, curRight: bool, keys: seq<bool>, m: MathLib)
      returns (running: bool)
      requires Valid() && input != null && ValidMath(m) && |keys| == KEY_COUNT
      modifies this, ecs, input, input.keysDown, input.keysPressed, input.keysReleased, input.prevKeysDown
      ensures Valid() && input == old(input)
      ensures running == !shouldClose
      ensures shouldClose ==> currentDt == old(currentDt) && pendingSceneLoad == old(pendingSceneLoad) && initRuns == old(initRuns)
      ensures scenes == old(scenes) && vsync == old(vsync) && targetFrameTime == old(targetFrameTime)
      ensures !running ==> unchanged(ecs)
      ensures shouldClose ==> unchanged(this, input, input.keysDown, input.keysPressed, input.keysReleased, input.prevKeysDown)
      ensures running ==> currentDt == ClampDt(delta) && currentDt <= MAX_DT
      ensures running ==> ecs.order == old(ecs.order)
      ensures running ==>
        && ecs.grid == BuildGrid(old(ecs.entities), ecs.order, currentDt, m)
        && ecs.bigBodies == BigBodies(old(ecs.entities), ecs.order, m)
        && ecs.events == []
      ensures running ==>
        Collided(ecs.entities, ecs.testedPairs, ecs.resolved, FallAll(MoveAll(old(ecs.entities), currentDt), currentDt), old(ecs.events), m)
      ensures running ==> input.Settled() && input.keysDown[..] == keys
      ensures running ==>
        input.PolledFrom(mx, my, curLeft, curRight, keys,
                         old(input.prevLeftDown), old(input.prevRightDown), old(input.prevKeysDown[..]))
      ensures running ==> pendingSceneLoad == ""
      ensures running && old(pendingSceneLoad) != "" && old(pendingSceneLoad) in scenes ==>
        currentSceneName == old(pendingSceneLoad) && initRuns == old(initRuns) + [old(pendingSceneLoad)]
      ensures running && (old(pendingSceneLoad) == "" || old(pendingSceneLoad) !in scenes) ==>
        currentSceneName == old(currentSceneName) && initRuns == old(initRuns)
    {
      if shouldClose {
        return false;
      }
      var dt := delta;
      if dt > MAX_DT {
        dt := MAX_DT;
      }
      currentDt := dt;
      RunFrame(dt, mx, my, curLeft, curRight, keys, m);
      return true;
    }
  }
}
