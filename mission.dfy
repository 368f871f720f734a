/** The shared data model of the mission software: the records that the
    pathfinder, the telemetry simulator and the advisory engine exchange.
    Numbers are JavaScript doubles in the original; they are modelled as exact
    `real`s, so rounding is not part of this model. */
module Mission {

  datatype Option<+T> = None | Some(value: T)

  /** A plain 2D coordinate (simulation-space kilometres). */
  datatype Point = Point(x: real, y: real)

  /** A 3D vector: spacecraft position or velocity. */
  datatype Vec3 = Vec3(x: real, y: real, z: real)

  /** Operational status. `Idle` exists in the type but the simulator never assigns it. */
  datatype Status = Active | Idle | Critical | Maintenance

  /** One spacecraft telemetry record. `lastUpdate` is a clock reading supplied by the caller. */
  datatype Telemetry = Telemetry(
    id: string,
    name: string,
    position: Vec3,
    velocity: Vec3,
    fuel: real,
    temperature: real,
    radiation: real,
    batteryLevel: real,
    systemHealth: real,
    status: Status,
    lastUpdate: int)

  /** Cosmetic payload of an asteroid; the pathfinder never reads it. */
  datatype MineralContent = MineralContent(platinum: real, gold: real, water: real, rareEarth: real)

  /** A circular obstacle. */
  datatype Asteroid = Asteroid(id: string, position: Point, radius: real, mineralContent: MineralContent)

  /** A search node. The original holds a reference to its parent node; here
      `parent` is the index of the parent in the search's node arena. */
  datatype PathNode = PathNode(x: real, y: real, g: real, h: real, f: real, parent: Option<nat>)
  {
    function Pos(): Point { Point(x, y) }
  }

  datatype RecommendationType = Navigation | FuelAdvice | MaintenanceAdvice | MissionAdvice

  datatype Priority = Low | Medium | High | CriticalPriority

  /** The action tag an advisory may carry. */
  datatype Action = AbortMission | OptimizeTrajectory | RunDiagnostics | ThermalRegulation | AvoidRadiation
  {
    function Tag(): string
    {
      match this
      case AbortMission => "ABORT_MISSION"
      case OptimizeTrajectory => "OPTIMIZE_TRAJECTORY"
      case RunDiagnostics => "RUN_DIAGNOSTICS"
      case ThermalRegulation => "THERMAL_REGULATION"
      case AvoidRadiation => "AVOID_RADIATION"
    }
  }

  /** An advisory. The display message interpolates `reading` (the telemetry
      value that triggered the rule) into a fixed text; `action` is the tag. */
  datatype Recommendation = Recommendation(
    kind: RecommendationType,
    priority: Priority,
    action: Option<Action>,
    reading: real)

  datatype RiskLevel = LowRisk | MediumRisk | HighRisk

  /** The computed part of a mission plan (identifier, name and launch window are left out). */
  datatype MissionPlan = MissionPlan(
    trajectory: seq<PathNode>,
    fuelRequirement: real,
    duration: real,
    riskLevel: RiskLevel,
    objectives: seq<string>)
}
