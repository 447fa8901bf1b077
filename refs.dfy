/** Maven coordinates as the atlas library's refs; equality is structural over their parts. */
module Refs {
  import opened Wrappers

  /** The wildcard token of exclusion-rule coordinates. */
  const Wildcard: string := "*"

  /** groupId:artifactId (atlas ProjectRef). */
  datatype ProjectRef = ProjectRef(groupId: string, artifactId: string)

  /** A dependency coordinate (atlas ArtifactRef): group, artifact, version, type and optional classifier. */
  datatype ArtifactRef = ArtifactRef(
    groupId: string,
    artifactId: string,
    version: string,
    artifactType: string,
    classifier: Option<string>)
  {
    /** ArtifactRef.asProjectRef: the group:artifact part. */
    function AsProjectRef(): ProjectRef {
      ProjectRef(groupId, artifactId)
    }
  }

  /** The text `groupId:artifactId` (IdUtils.ga, ProjectRef.toString). */
  function GA(groupId: string, artifactId: string): string {
    groupId + ":" + artifactId
  }

  /** A dependency exclusion entry. */
  datatype Exclusion = Exclusion(groupId: string, artifactId: string)
}
